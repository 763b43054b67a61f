/** Ruby's `String#split` with a literal (non-regular-expression) separator,
    and the substring predicates the auditor's string handling is stated with.

    Ruby scans for the separator from left to right, cuts the string into the
    fields between occurrences, and then drops every TRAILING empty field
    (leading and inner empty fields stay). Hence `"a/b/".split('/')` is
    `["a", "b"]`, `".a".split('.')` is `["", "a"]`, and `"".split('.')` and
    `"...".split('.')` are both `[]`, whose `[0]` and `last` are `nil`. */
module RubyStrings {
  import opened Wrappers

  /** `w` occurs in `s` starting at index `i`. */
  predicate OccursAt(s: string, w: string, i: int)
  {
    0 <= i && i + |w| <= |s| && s[i..i + |w|] == w
  }

  predicate StartsWith(s: string, w: string)
  {
    OccursAt(s, w, 0)
  }

  predicate EndsWith(s: string, w: string)
  {
    |w| <= |s| && OccursAt(s, w, |s| - |w|)
  }

  predicate Contains(s: string, w: string)
  {
    exists i | 0 <= i <= |s| :: OccursAt(s, w, i)
  }

  /** Index of the first occurrence of `sep` in `s` at or after `from`. */
  function FindFrom(s: string, sep: string, from: nat): (r: Option<nat>)
    requires from <= |s|
    ensures r.Some? ==> from <= r.value <= |s| && OccursAt(s, sep, r.value)
    ensures forall k | from <= k <= |s| && (r.None? || k < r.value) :: !OccursAt(s, sep, k)
    decreases |s| - from
  {
    if OccursAt(s, sep, from) then Some(from)
    else if from == |s| then None
    else FindFrom(s, sep, from + 1)
  }

  /** The fields `xs` put back together with `sep` between neighbours
      (Ruby's `xs.join(sep)`). */
  function Join(xs: seq<string>, sep: string): string
    requires |xs| >= 1
    decreases |xs|
  {
    if |xs| == 1 then xs[0] else xs[0] + sep + Join(xs[1..], sep)
  }

  /** Every field of `s` between occurrences of `sep`, trailing empty fields
      included (Ruby's `s.split(sep, -1)`); even `""` has one field. */
  function Fields(s: string, sep: string): (r: seq<string>)
    requires |sep| > 0
    ensures |r| >= 1
    decreases |s|
  {
    match FindFrom(s, sep, 0)
    case None => [s]
    case Some(k) => [s[..k]] + Fields(s[k + |sep|..], sep)
  }

  /** Joining the fields with the separator gives the string back: splitting
      loses nothing but the separators. */
  lemma {:induction false} FieldsJoin(s: string, sep: string)
    requires |sep| > 0
    ensures Join(Fields(s, sep), sep) == s
    decreases |s|
  {
    match FindFrom(s, sep, 0)
    case None =>
      assert Fields(s, sep) == [s];
    case Some(k) =>
      var rest := s[k + |sep|..];
      var tail := Fields(rest, sep);
      var r := Fields(s, sep);
      assert r == [s[..k]] + tail;
      assert r[0] == s[..k] && r[1..] == tail && |r| > 1;
      FieldsJoin(rest, sep);
      calc {
        Join(r, sep);
        r[0] + sep + Join(r[1..], sep);
        s[..k] + sep + rest;
        { assert s[k..k + |sep|] == sep; }
        s;
      }
  }

  predicate AllEmpty(xs: seq<string>)
  {
    forall i | 0 <= i < |xs| :: xs[i] == ""
  }

  /** `xs` without its trailing run of empty strings. */
  function DropTrailingEmpty(xs: seq<string>): (r: seq<string>)
    ensures |r| <= |xs| && r == xs[..|r|]
    ensures |r| == 0 || r[|r| - 1] != ""
    ensures forall k | |r| <= k < |xs| :: xs[k] == ""
    decreases |xs|
  {
    if |xs| == 0 then []
    else if xs[|xs| - 1] == "" then DropTrailingEmpty(xs[..|xs| - 1])
    else xs
  }

  /** Ruby's `s.split(sep)` for a literal separator: the leading fields of
      `s`, up to and including the last non-empty one. */
  function Split(s: string, sep: string): (r: seq<string>)
    requires |sep| > 0
    ensures |r| <= |Fields(s, sep)|
    ensures r == Fields(s, sep)[..|r|]
    ensures forall k | |r| <= k < |Fields(s, sep)| :: Fields(s, sep)[k] == ""
    ensures |r| == 0 || r[|r| - 1] != ""
    ensures |r| == 0 <==> AllEmpty(Fields(s, sep))
  {
    DropTrailingEmpty(Fields(s, sep))
  }

  /** Ruby's `s.split(sep)[0]`: `nil` when every field is empty, otherwise
      the prefix of `s` before the first separator. */
  function FirstField(s: string, sep: string): (r: Option<string>)
    requires |sep| > 0
    ensures r.None? <==> AllEmpty(Fields(s, sep))
    ensures r.Some? ==> StartsWith(s, r.value) && !Contains(r.value, sep)
    ensures r.Some? ==> |r.value| == |s| || OccursAt(s, sep, |r.value|)
  {
    var parts := Split(s, sep);
    FirstFieldIsPrefix(s, sep);
    FieldsAvoidSeparator(s, sep);
    if |parts| == 0 then None else Some(parts[0])
  }

  /** Ruby's `s.split(sep).last`: `nil` when every field is empty, otherwise
      the last non-empty field, which holds no separator. */
  function LastField(s: string, sep: string): (r: Option<string>)
    requires |sep| > 0
    ensures r.None? <==> AllEmpty(Fields(s, sep))
    ensures r.Some? ==> r.value != "" && !Contains(r.value, sep)
  {
    var parts := Split(s, sep);
    FieldsAvoidSeparator(s, sep);
    if |parts| == 0 then None else Some(parts[|parts| - 1])
  }

  // ---------------------------------------------------------------------
  // Facts about occurrences in slices

  lemma OccursInPrefix(s: string, w: string, n: nat, i: int)
    requires n <= |s|
    requires OccursAt(s[..n], w, i)
    ensures OccursAt(s, w, i)
  {
    assert s[..n][i..i + |w|] == s[i..i + |w|];
  }

  lemma OccursInSuffix(s: string, w: string, n: nat, i: int)
    requires n <= |s|
    requires OccursAt(s[n..], w, i)
    ensures OccursAt(s, w, n + i)
  {
    assert s[n..][i..i + |w|] == s[n + i..n + i + |w|];
  }

  /** For a one-character string, containment is plain membership. */
  lemma ContainsChar(s: string, c: char)
    ensures Contains(s, [c]) <==> c in s
  {
    if c in s {
      var i :| 0 <= i < |s| && s[i] == c;
      assert OccursAt(s, [c], i);
    }
    if Contains(s, [c]) {
      var i :| 0 <= i <= |s| && OccursAt(s, [c], i);
      assert s[i] == s[i..i + 1][0];
    }
  }

  // ---------------------------------------------------------------------
  // Facts about the fields

  /** No field contains the separator. */
  lemma {:induction false} FieldsAvoidSeparator(s: string, sep: string)
    requires |sep| > 0
    ensures forall i | 0 <= i < |Fields(s, sep)| :: !Contains(Fields(s, sep)[i], sep)
    decreases |s|
  {
    match FindFrom(s, sep, 0)
    case None =>
    case Some(k) =>
      var rest := s[k + |sep|..];
      FieldsAvoidSeparator(rest, sep);
      if Contains(s[..k], sep) {
        var i :| 0 <= i <= k && OccursAt(s[..k], sep, i);
        OccursInPrefix(s, sep, k, i);
        assert false;
      }
      var r := Fields(s, sep);
      assert r == [s[..k]] + Fields(rest, sep);
      forall i | 0 <= i < |r|
        ensures !Contains(r[i], sep)
      {
        if i > 0 {
          assert r[i] == Fields(rest, sep)[i - 1];
        }
      }
  }

  /** The first field is the prefix of `s` up to the first separator (or all
      of `s` when there is none). */
  lemma {:induction false} FirstFieldIsPrefix(s: string, sep: string)
    requires |sep| > 0
    ensures StartsWith(s, Fields(s, sep)[0])
    ensures |Fields(s, sep)[0]| == |s| || OccursAt(s, sep, |Fields(s, sep)[0]|)
  {
    match FindFrom(s, sep, 0)
    case None =>
    case Some(k) =>
      assert Fields(s, sep)[0] == s[..k];
  }

  /** `f` is the part of `s` after the last separator: a suffix of `s` that is
      either all of `s` or directly preceded by `sep`. */
  predicate IsTrailingField(s: string, f: string, sep: string)
  {
    EndsWith(s, f) && (|f| == |s| || OccursAt(s, sep, |s| - |f| - |sep|))
  }

  lemma TrailingFieldExtends(s: string, sep: string, k: nat, f: string)
    requires k + |sep| <= |s| && OccursAt(s, sep, k)
    requires IsTrailingField(s[k + |sep|..], f, sep)
    ensures IsTrailingField(s, f, sep)
  {
    var rest := s[k + |sep|..];
    assert s[|s| - |f|..] == rest[|rest| - |f|..];
    if |f| < |rest| {
      OccursInSuffix(s, sep, k + |sep|, |rest| - |f| - |sep|);
    }
  }

  /** The last field is the suffix of `s` after the last separator (or all of
      `s` when there is none). */
  lemma {:induction false} LastFieldIsSuffix(s: string, sep: string)
    requires |sep| > 0
    ensures IsTrailingField(s, Fields(s, sep)[|Fields(s, sep)| - 1], sep)
    decreases |s|
  {
    match FindFrom(s, sep, 0)
    case None =>
      assert Fields(s, sep) == [s];
      assert s[|s| - |s|..] == s;
    case Some(k) =>
      var rest := s[k + |sep|..];
      var tail := Fields(rest, sep);
      LastFieldIsSuffix(rest, sep);
      assert Fields(s, sep) == [s[..k]] + tail;
      assert Fields(s, sep)[|Fields(s, sep)| - 1] == tail[|tail| - 1];
      TrailingFieldExtends(s, sep, k, tail[|tail| - 1]);
  }

  /** When every field is empty, `s` is made of separator characters only. */
  lemma {:induction false} EmptyFieldsOnlySeparators(s: string, sep: string)
    requires |sep| > 0
    requires AllEmpty(Fields(s, sep))
    ensures forall j | 0 <= j < |s| :: s[j] in sep
    decreases |s|
  {
    match FindFrom(s, sep, 0)
    case None =>
      assert Fields(s, sep)[0] == s;
    case Some(k) =>
      var rest := s[k + |sep|..];
      var r := Fields(s, sep);
      var tail := Fields(rest, sep);
      assert r == [s[..k]] + tail;
      assert k == 0 by {
        assert r[0] == s[..k];
      }
      assert AllEmpty(tail) by {
        forall i | 0 <= i < |tail|
          ensures tail[i] == ""
        {
          assert tail[i] == r[i + 1];
        }
      }
      EmptyFieldsOnlySeparators(rest, sep);
      SeparatorThenSeparators(s, sep);
  }

  /** A string that opens with the separator and continues with separator
      characters only is made of separator characters. */
  lemma SeparatorThenSeparators(s: string, sep: string)
    requires OccursAt(s, sep, 0)
    requires forall j | 0 <= j < |s[|sep|..]| :: s[|sep|..][j] in sep
    ensures forall j | 0 <= j < |s| :: s[j] in sep
  {
    forall j | 0 <= j < |s|
      ensures s[j] in sep
    {
      if j < |sep| {
        assert s[j] == s[0..|sep|][j];
      } else {
        assert s[j] == s[|sep|..][j - |sep|];
      }
    }
  }

  /** A string made only of one separator character has only empty fields. */
  lemma {:induction false} SeparatorsOnlyEmptyFields(s: string, c: char)
    requires forall j | 0 <= j < |s| :: s[j] == c
    ensures AllEmpty(Fields(s, [c]))
    decreases |s|
  {
    if |s| == 0 {
      assert FindFrom(s, [c], 0) == None;
    } else {
      assert OccursAt(s, [c], 0);
      assert FindFrom(s, [c], 0) == Some(0);
      var r := Fields(s, [c]);
      assert r == [""] + Fields(s[1..], [c]);
      SeparatorsOnlyEmptyFields(s[1..], c);
      forall i | 0 <= i < |r|
        ensures r[i] == ""
      {
        if i > 0 {
          assert r[i] == Fields(s[1..], [c])[i - 1];
        }
      }
    }
  }

  /** A string with a character outside the separator has a last field. */
  lemma LastFieldPresent(s: string, sep: string, j: nat)
    requires |sep| > 0
    requires j < |s| && s[j] !in sep
    ensures LastField(s, sep).Some?
  {
    if |Split(s, sep)| == 0 {
      EmptyFieldsOnlySeparators(s, sep);
      assert false;
    }
  }

  /** When the last raw field is not empty, `.last` is that field. */
  lemma LastFieldIsLastRawField(s: string, sep: string)
    requires |sep| > 0
    requires Fields(s, sep)[|Fields(s, sep)| - 1] != ""
    ensures LastField(s, sep) == Some(Fields(s, sep)[|Fields(s, sep)| - 1])
  {
    assert Split(s, sep) == Fields(s, sep);
  }

  lemma {:induction false} DropTrailingEmptyConcat(a: seq<string>, b: seq<string>)
    ensures DropTrailingEmpty(b) != [] ==> DropTrailingEmpty(a + b) == a + DropTrailingEmpty(b)
    ensures DropTrailingEmpty(b) == [] ==> DropTrailingEmpty(a + b) == DropTrailingEmpty(a)
    decreases |b|
  {
    if |b| == 0 {
      assert a + b == a;
    } else if b[|b| - 1] == "" {
      DropTrailingEmptyConcat(a, b[..|b| - 1]);
      assert (a + b)[..|a + b| - 1] == a + b[..|b| - 1];
    }
  }

  /** A string is a final segment of `s` with respect to the one-character
      separator `c`: non-empty, free of `c`, preceded by `c` or the start of
      `s`, and followed only by copies of `c`. */
  predicate IsFinalSegment(s: string, seg: string, c: char)
  {
    && |seg| > 0
    && c !in seg
    && exists i | 0 <= i <= |s| - |seg| ::
         && OccursAt(s, seg, i)
         && (i == 0 || s[i - 1] == c)
         && forall k | i + |seg| <= k < |s| :: s[k] == c
  }

  /** A final segment of the text after a separator is a final segment of
      the whole. */
  lemma FinalSegmentExtends(s: string, c: char, k: nat, seg: string)
    requires k < |s| && s[k] == c
    requires IsFinalSegment(s[k + 1..], seg, c)
    ensures IsFinalSegment(s, seg, c)
  {
    var rest := s[k + 1..];
    var i :| 0 <= i <= |rest| - |seg| && OccursAt(rest, seg, i) && (i == 0 || rest[i - 1] == c)
      && forall j | i + |seg| <= j < |rest| :: rest[j] == c;
    OccursInSuffix(s, seg, k + 1, i);
    assert i == 0 || s[k + i] == rest[i - 1];
    forall j | k + 1 + i + |seg| <= j < |s|
      ensures s[j] == c
    {
      assert s[j] == rest[j - k - 1];
    }
  }

  /** A non-empty, separator-free prefix followed only by separators is a
      final segment. */
  lemma FinalSegmentAtStart(s: string, c: char, k: nat)
    requires 0 < k <= |s|
    requires c !in s[..k]
    requires forall j | k <= j < |s| :: s[j] == c
    ensures IsFinalSegment(s, s[..k], c)
  {
    assert OccursAt(s, s[..k], 0);
  }

  /** A string has at most one final segment. */
  lemma FinalSegmentUnique(s: string, a: string, b: string, c: char)
    requires IsFinalSegment(s, a, c) && IsFinalSegment(s, b, c)
    ensures a == b
  {
    var i :| 0 <= i <= |s| - |a| && OccursAt(s, a, i) && (i == 0 || s[i - 1] == c)
      && forall k | i + |a| <= k < |s| :: s[k] == c;
    var j :| 0 <= j <= |s| - |b| && OccursAt(s, b, j) && (j == 0 || s[j - 1] == c)
      && forall k | j + |b| <= k < |s| :: s[k] == c;
    assert forall k | i <= k < i + |a| :: s[k] != c by {
      forall k | i <= k < i + |a| ensures s[k] != c { assert s[k] == a[k - i]; }
    }
    assert forall k | j <= k < j + |b| :: s[k] != c by {
      forall k | j <= k < j + |b| ensures s[k] != c { assert s[k] == b[k - j]; }
    }
    assert s[i + |a| - 1] != c && s[j + |b| - 1] != c;
    assert i + |a| == j + |b|;
    assert i == j;
    assert a == s[i..i + |a|];
  }

  /** `s.split(c).last` is the last non-empty `c`-separated segment of `s`. */
  lemma {:induction false} LastFieldIsFinalSegment(s: string, c: char)
    requires LastField(s, [c]).Some?
    ensures IsFinalSegment(s, LastField(s, [c]).value, c)
    decreases |s|
  {
    var sep := [c];
    var parts := Split(s, sep);
    var seg := LastField(s, sep).value;
    assert seg == parts[|parts| - 1] && seg != "";
    match FindFrom(s, sep, 0)
    case None =>
      assert Fields(s, sep) == [s];
      assert seg == s;
      FieldsAvoidSeparator(s, sep);
      ContainsChar(s, c);
      assert s[..|s|] == s;
      FinalSegmentAtStart(s, c, |s|);
    case Some(k) =>
      var rest := s[k + 1..];
      assert s[k] == s[k..k + 1][0];
      var tail := Fields(rest, sep);
      assert Fields(s, sep) == [s[..k]] + tail;
      DropTrailingEmptyConcat([s[..k]], tail);
      if DropTrailingEmpty(tail) != [] {
        assert LastField(rest, sep) == Some(seg);
        LastFieldIsFinalSegment(rest, c);
        FinalSegmentExtends(s, c, k, seg);
      } else {
        assert seg == s[..k];
        EmptyFieldsOnlySeparators(rest, sep);
        FieldsAvoidSeparator(s, sep);
        assert !Contains(Fields(s, sep)[0], sep);
        ContainsChar(s[..k], c);
        forall j | k <= j < |s|
          ensures s[j] == c
        {
          if j > k {
            assert s[j] == rest[j - k - 1];
          }
        }
        FinalSegmentAtStart(s, c, k);
      }
  }
}
