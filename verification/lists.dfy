/** Generic facts about Ruby arrays, modelled as Dafny sequences. */
module Lists {

  /** `xs` can be obtained from `ys` by dropping elements: same order, nothing invented. */
  predicate IsSubsequence<T(==)>(xs: seq<T>, ys: seq<T>)
    decreases |ys|
  {
    |xs| == 0 ||
    (|ys| > 0 &&
     if xs[0] == ys[0] then IsSubsequence(xs[1..], ys[1..]) else IsSubsequence(xs, ys[1..]))
  }

  /** Prepending the same element to both sides keeps a subsequence a subsequence. */
  lemma SubsequenceCons<T>(x: T, xs: seq<T>, ys: seq<T>)
    requires IsSubsequence(xs, ys)
    ensures IsSubsequence([x] + xs, [x] + ys)
  {
    assert ([x] + xs)[1..] == xs;
    assert ([x] + ys)[1..] == ys;
  }

  /** Prepending an element to the larger side only keeps a subsequence a subsequence. */
  lemma {:induction false} SubsequenceSkip<T>(x: T, xs: seq<T>, ys: seq<T>)
    requires IsSubsequence(xs, ys)
    ensures IsSubsequence(xs, [x] + ys)
    decreases |ys|, 1
  {
    assert ([x] + ys)[1..] == ys;
    if |xs| > 0 && xs[0] == x {
      // The greedy match takes x; the rest must then embed in ys.
      SubsequenceDropHead(xs, ys);
    }
  }

  /** A subsequence without its first element still embeds. */
  lemma {:induction false} SubsequenceDropHead<T>(xs: seq<T>, ys: seq<T>)
    requires |xs| > 0 && IsSubsequence(xs, ys)
    ensures IsSubsequence(xs[1..], ys)
    decreases |ys|, 0
  {
    if xs[0] == ys[0] {
      SubsequenceSkip(ys[0], xs[1..], ys[1..]);
      assert [ys[0]] + ys[1..] == ys;
    } else {
      SubsequenceDropHead(xs, ys[1..]);
      SubsequenceSkip(ys[0], xs[1..], ys[1..]);
      assert [ys[0]] + ys[1..] == ys;
    }
  }

  /** Every element of `xs` that is not in `drop`, in order. */
  function Without<T(==,!new)>(xs: seq<T>, drop: set<T>): (r: seq<T>)
    ensures forall x :: x in r <==> x in xs && x !in drop
    ensures IsSubsequence(r, xs)
  {
    if |xs| == 0 then []
    else if xs[0] in drop then
      var rest := Without(xs[1..], drop);
      SubsequenceSkip(xs[0], rest, xs[1..]);
      assert [xs[0]] + xs[1..] == xs;
      rest
    else
      var rest := Without(xs[1..], drop);
      SubsequenceCons(xs[0], rest, xs[1..]);
      assert [xs[0]] + xs[1..] == xs;
      [xs[0]] + rest
  }

  /** Ruby's `Array#delete(x)`: every occurrence of `x` removed. */
  function DeleteAll<T(==)>(xs: seq<T>, x: T): (r: seq<T>)
  {
    if |xs| == 0 then []
    else if xs[0] == x then DeleteAll(xs[1..], x)
    else [xs[0]] + DeleteAll(xs[1..], x)
  }

  /** Deleting one value after filtering out a set is filtering out the set with that value added. */
  lemma {:induction false} DeleteAllWithout<T(!new)>(xs: seq<T>, drop: set<T>, x: T)
    ensures DeleteAll(Without(xs, drop), x) == Without(xs, drop + {x})
    decreases |xs|
  {
    if |xs| > 0 {
      DeleteAllWithout(xs[1..], drop, x);
    }
  }
}
