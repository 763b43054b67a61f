/** Filename normalisation and the three `missing_*` lists of
    bin/audit_iaids.rb: `basenames` and Ruby's `Array#-`. */
module Reconciliation {
  import opened Wrappers
  import opened RubyStrings

  /** A comparison key: the text of a filename before its first `.`, or
      `None` for Ruby's `nil`, which `p.split('.')[0]` yields when `p` has no
      character other than `.` (the empty name, `"..."`). */
  type Key = Option<string>

  /** `p.split('.')[0]`: everything before the first `.`. */
  function Basename(p: string): (r: Key)
    ensures r.None? <==> forall k | 0 <= k < |p| :: p[k] == '.'
    ensures r.Some? ==> StartsWith(p, r.value)
    ensures r.Some? ==> '.' !in r.value
    ensures r.Some? ==> |r.value| == |p| || p[|r.value|] == '.'
  {
    BasenameFacts(p);
    FirstField(p, ".")
  }

  lemma BasenameFacts(p: string)
    ensures FirstField(p, ".").None? <==> forall k | 0 <= k < |p| :: p[k] == '.'
    ensures FirstField(p, ".").Some? ==>
      var b := FirstField(p, ".").value;
      StartsWith(p, b) && '.' !in b && (|b| == |p| || p[|b|] == '.')
  {
    var fields := Fields(p, ".");
    if forall k | 0 <= k < |p| :: p[k] == '.' {
      SeparatorsOnlyEmptyFields(p, '.');
    } else if AllEmpty(fields) {
      EmptyFieldsOnlySeparators(p, ".");
    }
    if FirstField(p, ".").Some? {
      var b := FirstField(p, ".").value;
      assert b == fields[0];
      FirstFieldIsPrefix(p, ".");
      FieldsAvoidSeparator(p, ".");
      ContainsChar(b, '.');
      if |b| < |p| {
        assert p[|b|] == p[|b|..|b| + 1][0];
      }
    }
  }

  /** A name cut at its first dot: `"page_001.jp2"` gives `"page_001"` and
      `"a.b.c.txt"` gives `"a"`. */
  lemma BasenameOfDotted(stem: string, ext: string)
    requires |stem| > 0 && '.' !in stem
    ensures Basename(stem + "." + ext) == Some(stem)
  {
    var p := stem + "." + ext;
    assert p[0] == stem[0] != '.';
    var b := Basename(p).value;
    assert p[|stem|] == '.';
    forall k | 0 <= k < |stem|
      ensures p[k] != '.'
    {
      assert p[k] == stem[k];
    }
    assert |b| == |stem|;
    assert b == p[..|stem|] == stem;
  }

  /** `basenames(paths)`: the key of every path, in order. */
  function Basenames(paths: seq<string>): (r: seq<Key>)
    ensures |r| == |paths|
    ensures forall i | 0 <= i < |paths| :: r[i] == Basename(paths[i])
  {
    seq(|paths|, i requires 0 <= i < |paths| => Basename(paths[i]))
  }

  /** The basename of every listed path is among the basenames. */
  lemma BasenameListed(paths: seq<string>, p: string)
    requires p in paths
    ensures Basename(p) in Basenames(paths)
  {
    var i :| 0 <= i < |paths| && paths[i] == p;
    assert Basenames(paths)[i] == Basename(p);
  }

  /** `a` can be obtained from `b` by deleting elements. */
  predicate IsSubsequence<T(==)>(a: seq<T>, b: seq<T>)
    decreases |b|
  {
    |a| == 0 || (|b| > 0 && ((a[0] == b[0] && IsSubsequence(a[1..], b[1..])) || IsSubsequence(a, b[1..])))
  }

  /** Ruby's `xs - ys`: every element of `xs` that occurs nowhere in `ys`, in
      order, with its duplicates; every copy of an element of `ys` is gone. */
  function Minus<T(==,!new)>(xs: seq<T>, ys: seq<T>): (r: seq<T>)
    ensures IsSubsequence(r, xs)
    ensures forall x :: x in r <==> x in xs && x !in ys
    ensures forall x :: multiset(r)[x] == if x in ys then 0 else multiset(xs)[x]
    decreases |xs|
  {
    if |xs| == 0 then []
    else
      var rest := Minus(xs[1..], ys);
      assert xs == [xs[0]] + xs[1..];
      if xs[0] in ys then
        MinusSkipsHead(xs, rest, ys);
        rest
      else
        [xs[0]] + rest
  }

  /** A list avoiding `xs[0]` that is a subsequence of `xs[1..]` is one of
      `xs`. */
  lemma MinusSkipsHead<T>(xs: seq<T>, rest: seq<T>, ys: seq<T>)
    requires |xs| > 0 && xs[0] in ys
    requires IsSubsequence(rest, xs[1..])
    requires forall x :: x in rest ==> x !in ys
    ensures IsSubsequence(rest, xs)
  {
  }

  /** Nothing is left once every element is on the right. */
  lemma MinusCovered<T(!new)>(xs: seq<T>, ys: seq<T>)
    requires forall x | x in xs :: x in ys
    ensures Minus(xs, ys) == []
  {
    var r := Minus(xs, ys);
    assert multiset(r) == multiset{} by {
      forall x: T
        ensures multiset(r)[x] == 0
      {
        if x !in ys {
          assert multiset(xs)[x] == 0;
        }
      }
    }
  }

  /** The `missing_*` list for one storage category (lines 110-112). */
  function Missing(iaFiles: seq<string>, stored: seq<string>): (r: seq<Key>)
    ensures IsSubsequence(r, Basenames(iaFiles))
    ensures forall k :: k in r <==> k in Basenames(iaFiles) && k !in Basenames(stored)
  {
    Minus(Basenames(iaFiles), Basenames(stored))
  }
}
