/** The parts of Go's `strings` package the core relies on, for the separators
    and patterns it uses: Split and Join on a one-character separator, Index
    and a first-occurrence Replace on a fixed pattern, and an all-occurrences
    Replace of one character by another. */
module GoStrings {

  /** strings.Split(s, string(c)): the pieces of `s` between the occurrences
      of `c`. There is always at least one piece (`Split("", c) == [""]`). */
  function Split(s: string, c: char): (parts: seq<string>)
    ensures |parts| >= 1
    ensures forall i :: 0 <= i < |parts| ==> c !in parts[i]
    ensures Join(parts, c) == s
    decreases |s|
  {
    if s == [] then [""]
    else
      var rest := Split(s[1..], c);
      if s[0] == c then
        assert s == [c] + s[1..];
        [""] + rest
      else
        JoinExtendFirst(s[0], rest, c);
        assert s == [s[0]] + s[1..];
        [[s[0]] + rest[0]] + rest[1..]
  }

  /** strings.Join(parts, string(c)). */
  function Join(parts: seq<string>, c: char): string
  {
    if parts == [] then ""
    else if |parts| == 1 then parts[0]
    else parts[0] + [c] + Join(parts[1..], c)
  }

  lemma JoinExtendFirst(x: char, parts: seq<string>, c: char)
    requires |parts| >= 1
    ensures Join([[x] + parts[0]] + parts[1..], c) == [x] + Join(parts, c)
  {
    var p := [[x] + parts[0]] + parts[1..];
    assert p[1..] == parts[1..];
  }

  /** Joining three parts. */
  lemma JoinThree(a: string, b: string, c: string, sep: char)
    ensures Join([a, b, c], sep) == a + [sep] + b + [sep] + c
  {
    assert [a, b, c][1..] == [b, c];
    assert [b, c][1..] == [c];
    assert Join([b, c], sep) == b + [sep] + c;
    assert Join([a, b, c], sep) == a + [sep] + (b + [sep] + c);
  }

  /** Joining four parts. */
  lemma JoinFour(a: string, b: string, c: string, d: string, sep: char)
    ensures Join([a, b, c, d], sep) == a + [sep] + b + [sep] + c + [sep] + d
  {
    assert [a, b, c, d][1..] == [b, c, d];
    JoinThree(b, c, d, sep);
    assert Join([a, b, c, d], sep) == a + [sep] + (b + [sep] + c + [sep] + d);
  }

  /** A piece free of the separator, followed by the separator, is split off
      as the first piece. */
  lemma {:induction false} SplitAfterPiece(x: string, c: char, y: string)
    requires c !in x
    ensures Split(x + [c] + y, c) == [x] + Split(y, c)
    decreases |x|
  {
    var s := x + [c] + y;
    if x == [] {
      assert s[0] == c && s[1..] == y;
    } else {
      assert s[0] == x[0] && s[1..] == x[1..] + [c] + y;
      var rest := Split(s[1..], c);
      assert Split(s, c) == [[x[0]] + rest[0]] + rest[1..];
      SplitAfterPiece(x[1..], c, y);
      assert rest[0] == x[1..] && rest[1..] == Split(y, c);
      assert [x[0]] + x[1..] == x;
    }
  }

  /** A string without the separator is one piece. */
  lemma {:induction false} SplitNoSeparator(x: string, c: char)
    requires c !in x
    ensures Split(x, c) == [x]
    decreases |x|
  {
    if x != [] {
      SplitNoSeparator(x[1..], c);
      assert [x[0]] + x[1..] == x;
    }
  }

  /** Split undoes Join when no piece holds the separator. */
  lemma {:induction false} SplitJoin(parts: seq<string>, c: char)
    requires |parts| >= 1
    requires forall i :: 0 <= i < |parts| ==> c !in parts[i]
    ensures Split(Join(parts, c), c) == parts
    decreases |parts|
  {
    if |parts| == 1 {
      SplitNoSeparator(parts[0], c);
    } else {
      SplitJoin(parts[1..], c);
      SplitAfterPiece(parts[0], c, Join(parts[1..], c));
      assert [parts[0]] + parts[1..] == parts;
    }
  }

  /** Join brings in no character that is neither the separator nor in a piece. */
  lemma {:induction false} JoinAvoids(parts: seq<string>, c: char, d: char)
    requires d != c
    requires forall i :: 0 <= i < |parts| ==> d !in parts[i]
    ensures d !in Join(parts, c)
    decreases |parts|
  {
    if |parts| > 1 {
      JoinAvoids(parts[1..], c, d);
    }
  }

  /** `pat` occurs in `s` starting at index `k`. */
  predicate OccursAt(s: string, pat: string, k: nat)
  {
    k + |pat| <= |s| && s[k..k + |pat|] == pat
  }

  /** strings.Index(s, pat) searching from index `from`: the first
      occurrence at or after `from`, or -1. */
  function IndexFrom(s: string, pat: string, from: nat): (k: int)
    ensures k == -1 || (from <= k && OccursAt(s, pat, k))
    ensures forall j :: from <= j && (k == -1 || j < k) ==> !OccursAt(s, pat, j)
    decreases |s| + 1 - from
  {
    if from + |pat| > |s| then -1
    else if OccursAt(s, pat, from) then from
    else IndexFrom(s, pat, from + 1)
  }

  /** strings.Index(s, pat). */
  function Index(s: string, pat: string): int
  {
    IndexFrom(s, pat, 0)
  }

  /** strings.Replace(s, pat, repl, 1): the first occurrence of `pat` replaced by `repl`. */
  function ReplaceFirst(s: string, pat: string, repl: string): string
  {
    var k := Index(s, pat);
    if k == -1 then s else s[..k] + repl + s[k + |pat|..]
  }

  /** A string that starts with `pat` has that occurrence replaced. */
  lemma ReplaceFirstAtStart(pat: string, repl: string, rest: string)
    ensures ReplaceFirst(pat + rest, pat, repl) == repl + rest
  {
    assert OccursAt(pat + rest, pat, 0) by {
      assert (pat + rest)[..|pat|] == pat;
    }
    assert (pat + rest)[|pat|..] == rest;
  }

  /** strings.Replace(s, string(a), string(b), -1): every `a` becomes `b`. */
  function ReplaceAll(s: string, a: char, b: char): (r: string)
    ensures |r| == |s|
    ensures forall i :: 0 <= i < |s| ==> r[i] == (if s[i] == a then b else s[i])
    decreases |s|
  {
    if s == [] then []
    else [if s[0] == a then b else s[0]] + ReplaceAll(s[1..], a, b)
  }

  /** A replaced character is gone from the result. */
  lemma ReplaceAllRemoves(s: string, a: char, b: char)
    requires a != b
    ensures a !in ReplaceAll(s, a, b)
  {
  }

  lemma ReplaceAllConcat(x: string, y: string, a: char, b: char)
    ensures ReplaceAll(x + y, a, b) == ReplaceAll(x, a, b) + ReplaceAll(y, a, b)
  {
    var l, r := ReplaceAll(x + y, a, b), ReplaceAll(x, a, b) + ReplaceAll(y, a, b);
    assert |l| == |r|;
    forall i | 0 <= i < |l| ensures l[i] == r[i] {
      if i < |x| { assert (x + y)[i] == x[i]; } else { assert (x + y)[i] == y[i - |x|]; }
    }
  }

  lemma ReplaceAllAbsent(x: string, a: char, b: char)
    requires a !in x
    ensures ReplaceAll(x, a, b) == x
  {
    var r := ReplaceAll(x, a, b);
    forall i | 0 <= i < |x| ensures r[i] == x[i] {
      assert x[i] != a;
    }
  }

  /** Replacing the separator of a join replaces the join's separator. */
  lemma {:induction false} ReplaceAllJoin(parts: seq<string>, a: char, b: char)
    requires forall i :: 0 <= i < |parts| ==> a !in parts[i]
    ensures ReplaceAll(Join(parts, a), a, b) == Join(parts, b)
    decreases |parts|
  {
    if |parts| == 1 {
      ReplaceAllAbsent(parts[0], a, b);
    } else if |parts| > 1 {
      ReplaceAllJoin(parts[1..], a, b);
      ReplaceAllConcat(parts[0] + [a], Join(parts[1..], a), a, b);
      ReplaceAllConcat(parts[0], [a], a, b);
      ReplaceAllAbsent(parts[0], a, b);
    }
  }
}
