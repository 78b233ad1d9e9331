/** Order-preserving list processing: Kotlin's `map` and `mapNotNull`. */
module Seqs {
  import opened Wrappers

  /** Kotlin's `map`: one result per element, in the same order. */
  function Map<T, U>(f: T -> U, xs: seq<T>): (r: seq<U>)
    ensures |r| == |xs|
    ensures forall i :: 0 <= i < |xs| ==> r[i] == f(xs[i])
  {
    seq(|xs|, i requires 0 <= i < |xs| => f(xs[i]))
  }

  /** Kotlin's `mapNotNull`: keeps the values of the elements on which `f` succeeds. */
  function MapNotNull<T, U>(f: T -> Option<U>, xs: seq<T>): (r: seq<U>)
    ensures |r| <= |xs|
    ensures forall y :: y in r ==> exists x :: x in xs && f(x) == Some(y)
  {
    if |xs| == 0 then []
    else
      match f(xs[0])
      case Some(y) => [y] + MapNotNull(f, xs[1..])
      case None => MapNotNull(f, xs[1..])
  }

  /** `r[k]` is the value `f` gives at position `idx[k]` of `xs`. */
  ghost predicate ValuesAt<T, U>(f: T -> Option<U>, xs: seq<T>, r: seq<U>, idx: seq<int>) {
    && |idx| == |r|
    && forall k :: 0 <= k < |idx| ==> 0 <= idx[k] < |xs| && f(xs[idx[k]]) == Some(r[k])
  }

  ghost predicate StrictlyIncreasing(idx: seq<int>) {
    forall k, l :: 0 <= k < l < |idx| ==> idx[k] < idx[l]
  }

  /** Every position of `xs` on which `f` succeeds is listed in `idx`. */
  ghost predicate CoversSuccesses<T, U>(f: T -> Option<U>, xs: seq<T>, idx: seq<int>) {
    forall i :: 0 <= i < |xs| && f(xs[i]).Some? ==> i in idx
  }

  /** `idx` lists, strictly increasing, exactly the positions of `xs` on which `f`
      succeeds, and `r` holds the values `f` gives there: `r` is the order-preserving
      subsequence of the successful results, and nothing else. */
  ghost predicate IsSelection<T, U>(f: T -> Option<U>, xs: seq<T>, r: seq<U>, idx: seq<int>) {
    ValuesAt(f, xs, r, idx) && StrictlyIncreasing(idx) && CoversSuccesses(f, xs, idx)
  }

  function Shift(s: seq<int>): (r: seq<int>)
    ensures |r| == |s|
    ensures forall k :: 0 <= k < |s| ==> r[k] == s[k] + 1
  {
    seq(|s|, k requires 0 <= k < |s| => s[k] + 1)
  }

  /** The positions of `xs` on which `f` succeeds, in increasing order. */
  function KeptPositions<T, U>(f: T -> Option<U>, xs: seq<T>): seq<int> {
    if |xs| == 0 then []
    else if f(xs[0]).Some? then [0] + Shift(KeptPositions(f, xs[1..]))
    else Shift(KeptPositions(f, xs[1..]))
  }

  lemma {:induction false} KeptPositionsValues<T, U>(f: T -> Option<U>, xs: seq<T>)
    ensures ValuesAt(f, xs, MapNotNull(f, xs), KeptPositions(f, xs))
  {
    if |xs| > 0 {
      var tail := xs[1..];
      KeptPositionsValues(f, tail);
      var idx', r' := KeptPositions(f, tail), MapNotNull(f, tail);
      var sh := Shift(idx');
      forall k | 0 <= k < |sh|
        ensures 1 <= sh[k] < |xs| && f(xs[sh[k]]) == Some(r'[k])
      {
        assert xs[sh[k]] == tail[idx'[k]];
      }
      if f(xs[0]).Some? {
        var idx, r := [0] + sh, [f(xs[0]).value] + r';
        assert KeptPositions(f, xs) == idx;
        assert MapNotNull(f, xs) == r;
        forall k | 0 <= k < |idx|
          ensures 0 <= idx[k] < |xs| && f(xs[idx[k]]) == Some(r[k])
        {
          if k > 0 {
            assert idx[k] == sh[k - 1] && r[k] == r'[k - 1];
          }
        }
      } else {
        assert KeptPositions(f, xs) == sh;
        assert MapNotNull(f, xs) == r';
      }
    }
  }

  lemma {:induction false} KeptPositionsIncreasing<T, U>(f: T -> Option<U>, xs: seq<T>)
    ensures StrictlyIncreasing(KeptPositions(f, xs))
    ensures forall k :: 0 <= k < |KeptPositions(f, xs)| ==> 0 <= KeptPositions(f, xs)[k] < |xs|
  {
    if |xs| > 0 {
      KeptPositionsIncreasing(f, xs[1..]);
      var sh := Shift(KeptPositions(f, xs[1..]));
      if f(xs[0]).Some? {
        assert KeptPositions(f, xs) == [0] + sh;
      } else {
        assert KeptPositions(f, xs) == sh;
      }
    }
  }

  lemma {:induction false} KeptPositionsCover<T, U>(f: T -> Option<U>, xs: seq<T>)
    ensures CoversSuccesses(f, xs, KeptPositions(f, xs))
  {
    if |xs| > 0 {
      var tail := xs[1..];
      KeptPositionsCover(f, tail);
      var idx' := KeptPositions(f, tail);
      var sh := Shift(idx');
      forall i | 1 <= i < |xs| && f(xs[i]).Some?
        ensures i in sh
      {
        assert tail[i - 1] == xs[i];
        var k :| 0 <= k < |idx'| && idx'[k] == i - 1;
        assert sh[k] == i;
      }
      if f(xs[0]).Some? {
        assert KeptPositions(f, xs) == [0] + sh;
      } else {
        assert KeptPositions(f, xs) == sh;
      }
    }
  }

  /** `mapNotNull` keeps every successful result, only those, in input order. */
  lemma {:induction false} MapNotNullIsSelection<T, U>(f: T -> Option<U>, xs: seq<T>)
    ensures IsSelection(f, xs, MapNotNull(f, xs), KeptPositions(f, xs))
  {
    KeptPositionsValues(f, xs);
    KeptPositionsIncreasing(f, xs);
    KeptPositionsCover(f, xs);
  }

  /** `mapNotNull` distributes over concatenation: each element is handled on its own. */
  lemma {:induction false} MapNotNullAppend<T, U>(f: T -> Option<U>, xs: seq<T>, ys: seq<T>)
    ensures MapNotNull(f, xs + ys) == MapNotNull(f, xs) + MapNotNull(f, ys)
  {
    if |xs| > 0 {
      assert (xs + ys)[0] == xs[0];
      assert (xs + ys)[1..] == xs[1..] + ys;
      MapNotNullAppend(f, xs[1..], ys);
    } else {
      assert xs + ys == ys;
    }
  }

  /** Elements on which `f` fails can be removed without changing the result. */
  lemma {:induction false} MapNotNullDropFailures<T, U>(f: T -> Option<U>, xs: seq<T>, failed: seq<T>, ys: seq<T>)
    requires forall i :: 0 <= i < |failed| ==> f(failed[i]).None?
    ensures MapNotNull(f, xs + failed + ys) == MapNotNull(f, xs + ys)
  {
    MapNotNullAllFail(f, failed);
    MapNotNullAppend(f, xs + failed, ys);
    MapNotNullAppend(f, xs, failed);
    MapNotNullAppend(f, xs, ys);
  }

  lemma {:induction false} MapNotNullAllFail<T, U>(f: T -> Option<U>, xs: seq<T>)
    requires forall i :: 0 <= i < |xs| ==> f(xs[i]).None?
    ensures MapNotNull(f, xs) == []
  {
    if |xs| > 0 {
      assert forall i :: 0 <= i < |xs[1..]| ==> xs[1..][i] == xs[i + 1];
      MapNotNullAllFail(f, xs[1..]);
    }
  }
}
