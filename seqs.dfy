/** The shape shared by the source's two line loops: walk a sequence, skip the
    elements that give nothing, append what the others give. */
module Seqs {
  import opened Util

  function FilterMap<A, B>(f: A -> Option<B>, xs: seq<A>): seq<B>
  {
    if xs == [] then []
    else
      (match f(xs[0]) case Some(y) => [y] case None => []) + FilterMap(f, xs[1..])
  }

  /** Elements are handled independently: the loop may be split anywhere. */
  lemma {:induction false} FilterMapAppend<A, B>(f: A -> Option<B>, a: seq<A>, b: seq<A>)
    ensures FilterMap(f, a + b) == FilterMap(f, a) + FilterMap(f, b)
    decreases |a|
  {
    if a == [] {
      assert a + b == b;
    } else {
      var head := match f(a[0]) case Some(y) => [y] case None => [];
      assert (a + b)[0] == a[0] && (a + b)[1..] == a[1..] + b;
      assert FilterMap(f, a + b) == head + FilterMap(f, a[1..] + b);
      FilterMapAppend(f, a[1..], b);
      assert FilterMap(f, a) == head + FilterMap(f, a[1..]);
    }
  }

  /** One loop step: the result grows by what the next element gives. */
  lemma FilterMapStep<A, B>(f: A -> Option<B>, xs: seq<A>, i: nat)
    requires i < |xs|
    ensures FilterMap(f, xs[..i + 1])
         == FilterMap(f, xs[..i]) + (match f(xs[i]) case Some(y) => [y] case None => [])
  {
    FilterMapAppend(f, xs[..i], [xs[i]]);
    assert xs[..i + 1] == xs[..i] + [xs[i]];
  }

  /** The positions of the elements of `xs` that give something, in order. */
  function Origins<A, B>(f: A -> Option<B>, xs: seq<A>): (idx: seq<nat>)
    ensures forall i :: 0 <= i < |idx| ==> idx[i] < |xs|
  {
    if xs == [] then []
    else (if f(xs[0]).Some? then [0] else []) + Shift(Origins(f, xs[1..]))
  }

  function Shift(s: seq<nat>): (r: seq<nat>)
    ensures |r| == |s| && forall i :: 0 <= i < |s| ==> r[i] == s[i] + 1
  {
    seq(|s|, i requires 0 <= i < |s| => s[i] + 1)
  }

  /** Each result comes from the element at its origin. */
  lemma {:induction false} OriginsGive<A, B>(f: A -> Option<B>, xs: seq<A>)
    ensures |Origins(f, xs)| == |FilterMap(f, xs)|
    ensures forall i :: 0 <= i < |Origins(f, xs)| ==>
      f(xs[Origins(f, xs)[i]]) == Some(FilterMap(f, xs)[i])
    decreases |xs|
  {
    if xs != [] {
      var tail := xs[1..];
      OriginsGive(f, tail);
      var idx, rest := Origins(f, xs), Origins(f, tail);
      var all, later := FilterMap(f, xs), FilterMap(f, tail);
      var h := if f(xs[0]).Some? then 1 else 0;
      assert all == (if f(xs[0]).Some? then [f(xs[0]).value] else []) + later;
      forall i | h <= i < |idx| ensures f(xs[idx[i]]) == Some(all[i]) {
        assert idx[i] == rest[i - h] + 1 && all[i] == later[i - h];
        assert xs[rest[i - h] + 1] == tail[rest[i - h]];
      }
    }
  }

  /** Origins are listed in increasing order. */
  lemma {:induction false} OriginsIncrease<A, B>(f: A -> Option<B>, xs: seq<A>)
    ensures forall i, j :: 0 <= i < j < |Origins(f, xs)| ==> Origins(f, xs)[i] < Origins(f, xs)[j]
    decreases |xs|
  {
    if xs != [] {
      OriginsIncrease(f, xs[1..]);
      var idx, rest := Origins(f, xs), Origins(f, xs[1..]);
      var h := if f(xs[0]).Some? then 1 else 0;
      forall i, j | 0 <= i < j < |idx| ensures idx[i] < idx[j] {
        assert idx[j] == rest[j - h] + 1;
        if i >= h {
          assert idx[i] == rest[i - h] + 1;
        } else {
          assert idx[i] == 0;
        }
      }
    }
  }

  /** Every element that gives something is an origin. */
  lemma {:induction false} OriginsCover<A, B>(f: A -> Option<B>, xs: seq<A>, k: nat)
    requires k < |xs| && f(xs[k]).Some?
    ensures k in Origins(f, xs)
    decreases |xs|
  {
    var idx := Origins(f, xs);
    if k == 0 {
      assert idx[0] == 0;
    } else {
      var tail := xs[1..];
      assert tail[k - 1] == xs[k];
      OriginsCover(f, tail, k - 1);
      var rest := Origins(f, tail);
      var j :| 0 <= j < |rest| && rest[j] == k - 1;
      var h := if f(xs[0]).Some? then 1 else 0;
      assert idx[h + j] == k;
    }
  }

  /** Exactly the elements that give something are kept, one result each and
      in order: `idx` lists, increasing, the element each result comes from,
      and every element that gives something is listed. */
  lemma FilterMapOrigins<A, B>(f: A -> Option<B>, xs: seq<A>) returns (idx: seq<nat>)
    ensures |idx| == |FilterMap(f, xs)|
    ensures forall i :: 0 <= i < |idx| ==> idx[i] < |xs| && f(xs[idx[i]]) == Some(FilterMap(f, xs)[i])
    ensures forall i, j :: 0 <= i < j < |idx| ==> idx[i] < idx[j]
    ensures forall k :: 0 <= k < |xs| && f(xs[k]).Some? ==> k in idx
  {
    idx := Origins(f, xs);
    OriginsGive(f, xs);
    OriginsIncrease(f, xs);
    forall k | 0 <= k < |xs| && f(xs[k]).Some? ensures k in idx {
      OriginsCover(f, xs, k);
    }
  }

  lemma {:induction false} FilterMapNone<A, B>(f: A -> Option<B>, xs: seq<A>)
    requires forall i :: 0 <= i < |xs| ==> f(xs[i]) == None
    ensures FilterMap(f, xs) == []
    decreases |xs|
  {
    if xs != [] {
      FilterMapNone(f, xs[1..]);
    }
  }

  /** Elements that give nothing are invisible: removing them anywhere
      changes nothing. */
  lemma FilterMapSkips<A, B>(f: A -> Option<B>, before: seq<A>, skipped: seq<A>, after: seq<A>)
    requires forall i :: 0 <= i < |skipped| ==> f(skipped[i]) == None
    ensures FilterMap(f, before + skipped + after) == FilterMap(f, before + after)
  {
    FilterMapAppend(f, before + skipped, after);
    FilterMapAppend(f, before, skipped);
    FilterMapAppend(f, before, after);
    FilterMapNone(f, skipped);
    assert FilterMap(f, before + skipped) == FilterMap(f, before);
  }

  /** When every element gives something, the result is pointwise. */
  lemma {:induction false} FilterMapAll<A, B>(f: A -> Option<B>, xs: seq<A>)
    requires forall i :: 0 <= i < |xs| ==> f(xs[i]).Some?
    ensures |FilterMap(f, xs)| == |xs|
    ensures forall i :: 0 <= i < |xs| ==> f(xs[i]) == Some(FilterMap(f, xs)[i])
    decreases |xs|
  {
    if xs != [] {
      FilterMapAll(f, xs[1..]);
      var r := FilterMap(f, xs);
      assert r == [f(xs[0]).value] + FilterMap(f, xs[1..]);
      forall i | 1 <= i < |xs| ensures f(xs[i]) == Some(r[i]) {
        assert xs[1..][i - 1] == xs[i];
      }
    }
  }
}
