/** The JavaScript array built-ins the caption engine relies on (`findIndex`, `filter`),
    and the loop that pushes the present results of a function. */
module JsArray {
  import opened Types

  /** `xs.findIndex(p)`: the first index whose element satisfies `p`, or -1 when none does. */
  function FindIndex<T>(xs: seq<T>, p: T -> bool): (i: int)
    ensures -1 <= i < |xs|
    ensures i >= 0 ==> p(xs[i])
    ensures forall j :: 0 <= j < |xs| && (i == -1 || j < i) ==> !p(xs[j])
  {
    if xs == [] then -1
    else if p(xs[0]) then 0
    else
      var k := FindIndex(xs[1..], p);
      if k == -1 then -1 else k + 1
  }

  /** `xs.filter(p)`: the elements that satisfy `p`, in their original order. */
  function Filter<T(!new)>(xs: seq<T>, p: T -> bool): (r: seq<T>)
    ensures |r| <= |xs|
    ensures forall k :: 0 <= k < |r| ==> p(r[k])
    ensures forall x :: x in r <==> x in xs && p(x)
  {
    if xs == [] then []
    else (if p(xs[0]) then [xs[0]] else []) + Filter(xs[1..], p)
  }

  /** Filtering a concatenation filters each part and keeps them in order. */
  lemma {:induction false} FilterAppend<T(!new)>(xs: seq<T>, ys: seq<T>, p: T -> bool)
    ensures Filter(xs + ys, p) == Filter(xs, p) + Filter(ys, p)
  {
    if xs == [] {
      assert xs + ys == ys;
    } else {
      assert (xs + ys)[0] == xs[0];
      assert (xs + ys)[1..] == xs[1..] + ys;
      FilterAppend(xs[1..], ys, p);
    }
  }

  /** Filtering keeps everything exactly when every element passes. */
  lemma {:induction false} FilterKeepsAll<T(!new)>(xs: seq<T>, p: T -> bool)
    ensures Filter(xs, p) == xs <==> forall i :: 0 <= i < |xs| ==> p(xs[i])
  {
    if xs != [] {
      FilterKeepsAll(xs[1..], p);
      if !p(xs[0]) {
        assert |Filter(xs, p)| < |xs|;
      } else if Filter(xs, p) == xs {
        assert Filter(xs[1..], p) == xs[1..];
      }
    }
  }

  /** Filtering keeps nothing when no element passes. */
  lemma {:induction false} FilterKeepsNone<T(!new)>(xs: seq<T>, p: T -> bool)
    requires forall i :: 0 <= i < |xs| ==> !p(xs[i])
    ensures Filter(xs, p) == []
  {
    if xs != [] {
      FilterKeepsNone(xs[1..], p);
    }
  }

  /** A loop over `xs` that pushes `f(x)` whenever it is present: the present
      results, in the order of `xs`. */
  function Collect<A, B>(xs: seq<A>, f: A -> Option<B>): (r: seq<B>)
    ensures |r| <= |xs|
  {
    if xs == [] then []
    else Collect(xs[..|xs| - 1], f) + OptionToSeq(f(xs[|xs| - 1]))
  }

  /** One more step of the loop. */
  lemma CollectSnoc<A, B>(xs: seq<A>, i: nat, f: A -> Option<B>)
    requires i < |xs|
    ensures Collect(xs[..i + 1], f) == Collect(xs[..i], f) + OptionToSeq(f(xs[i]))
  {
    assert xs[..i + 1][..i] == xs[..i];
  }

  /** Collecting over two runs one after the other gives their results one after the other. */
  lemma {:induction false} CollectAppend<A, B>(xs: seq<A>, ys: seq<A>, f: A -> Option<B>)
    ensures Collect(xs + ys, f) == Collect(xs, f) + Collect(ys, f)
    decreases |ys|
  {
    if ys == [] {
      assert xs + ys == xs;
    } else {
      var init := ys[..|ys| - 1];
      assert (xs + ys)[..|xs + ys| - 1] == xs + init;
      assert (xs + ys)[|xs + ys| - 1] == ys[|ys| - 1];
      CollectAppend(xs, init, f);
    }
  }

  lemma CollectSingle<A, B>(x: A, f: A -> Option<B>)
    ensures Collect([x], f) == OptionToSeq(f(x))
  {
    assert [x][..0] == [];
  }

  /** An element whose result is absent contributes nothing, wherever it stands. */
  lemma CollectSkips<A, B>(xs: seq<A>, x: A, ys: seq<A>, f: A -> Option<B>)
    requires f(x) == None
    ensures Collect(xs + [x] + ys, f) == Collect(xs + ys, f)
  {
    calc {
      Collect(xs + [x] + ys, f);
      { CollectAppend(xs + [x], ys, f); }
      Collect(xs + [x], f) + Collect(ys, f);
      { CollectAppend(xs, [x], f); CollectSingle(x, f); }
      Collect(xs, f) + Collect(ys, f);
      { CollectAppend(xs, ys, f); }
      Collect(xs + ys, f);
    }
  }

  /** Every collected result is the present result of some element. */
  lemma {:induction false} CollectFrom<A, B>(xs: seq<A>, f: A -> Option<B>, k: nat)
    requires k < |Collect(xs, f)|
    ensures exists j :: 0 <= j < |xs| && f(xs[j]) == Some(Collect(xs, f)[k])
  {
    var init := xs[..|xs| - 1];
    if k < |Collect(init, f)| {
      CollectFrom(init, f, k);
      var j :| 0 <= j < |init| && f(init[j]) == Some(Collect(init, f)[k]);
      assert xs[j] == init[j];
    } else {
      assert f(xs[|xs| - 1]) == Some(Collect(xs, f)[k]);
    }
  }

  /** An element with a present result leaves something collected. */
  lemma {:induction false} CollectPresent<A, B>(xs: seq<A>, f: A -> Option<B>, j: nat)
    requires j < |xs| && f(xs[j]).Some?
    ensures Collect(xs, f) != []
    decreases |xs|
  {
    if j < |xs| - 1 {
      CollectPresent(xs[..|xs| - 1], f, j);
    }
  }
}
