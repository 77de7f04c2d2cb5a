/**
 Ordered lists of messages. Each form pushes its messages in a fixed order,
 given as a rank on message kinds, so an error list has strictly increasing
 ranks. Such a list is determined by which messages it contains.
 */
module MessageLists {

  /** Ranks strictly increase along `xs`, so it has no repetition either. */
  predicate Ascending<T>(xs: seq<T>, rank: T -> int) {
    forall i, j | 0 <= i < j < |xs| :: rank(xs[i]) < rank(xs[j])
  }

  /** Every message of `xs` has a rank in `[lo, hi)`. */
  predicate RanksWithin<T>(xs: seq<T>, rank: T -> int, lo: int, hi: int) {
    forall i | 0 <= i < |xs| :: lo <= rank(xs[i]) < hi
  }

  /** The head of an ascending list has the least rank in it. */
  lemma HeadHasLeastRank<T>(xs: seq<T>, rank: T -> int, m: T)
    requires Ascending(xs, rank) && m in xs
    ensures rank(xs[0]) <= rank(m)
    ensures rank(xs[0]) == rank(m) ==> xs[0] == m
  {
    var k :| 0 <= k < |xs| && xs[k] == m;
    if k != 0 {
      assert rank(xs[0]) < rank(xs[k]);
    }
  }

  /** The tail of an ascending list holds the other messages, still ascending. */
  lemma TailOfAscending<T>(xs: seq<T>, rank: T -> int)
    requires Ascending(xs, rank) && xs != []
    ensures Ascending(xs[1..], rank)
    ensures forall m :: m in xs[1..] <==> m in xs && m != xs[0]
  {
    forall m | m in xs && m != xs[0]
      ensures m in xs[1..]
    {
      var k :| 0 <= k < |xs| && xs[k] == m;
      assert xs[1..][k - 1] == m;
    }
    forall m | m in xs[1..]
      ensures m != xs[0]
    {
      var k :| 0 <= k < |xs[1..]| && xs[1..][k] == m;
      assert rank(xs[0]) < rank(xs[k + 1]);
    }
  }

  /** Two ascending lists with the same messages are the same list. */
  lemma {:induction false} AscendingDeterminedByContents<T>(xs: seq<T>, ys: seq<T>, rank: T -> int)
    requires Ascending(xs, rank) && Ascending(ys, rank)
    requires forall m :: m in xs <==> m in ys
    ensures xs == ys
    decreases |xs|
  {
    assert xs != [] ==> xs[0] in ys;
    assert ys != [] ==> ys[0] in xs;
    if xs != [] && ys != [] {
      HeadHasLeastRank(xs, rank, ys[0]);
      HeadHasLeastRank(ys, rank, xs[0]);
      TailOfAscending(xs, rank);
      TailOfAscending(ys, rank);
      AscendingDeterminedByContents(xs[1..], ys[1..], rank);
      assert xs == [xs[0]] + xs[1..];
      assert ys == [ys[0]] + ys[1..];
    }
  }

  /** Two ascending lists whose ranks lie in consecutive bands concatenate to
      an ascending list. */
  lemma AscendingConcat<T>(a: seq<T>, b: seq<T>, rank: T -> int, lo: int, mid: int, hi: int)
    requires lo <= mid <= hi
    requires Ascending(a, rank) && RanksWithin(a, rank, lo, mid)
    requires Ascending(b, rank) && RanksWithin(b, rank, mid, hi)
    ensures Ascending(a + b, rank) && RanksWithin(a + b, rank, lo, hi)
  {
    var ab := a + b;
    forall i, j | 0 <= i < j < |ab|
      ensures rank(ab[i]) < rank(ab[j])
    {
      if j < |a| {
        assert ab[i] == a[i] && ab[j] == a[j];
      } else if i >= |a| {
        assert ab[i] == b[i - |a|] && ab[j] == b[j - |a|];
      } else {
        assert ab[i] == a[i] && ab[j] == b[j - |a|];
      }
    }
    forall i | 0 <= i < |ab|
      ensures lo <= rank(ab[i]) < hi
    {
      if i < |a| {
        assert ab[i] == a[i];
      } else {
        assert ab[i] == b[i - |a|];
      }
    }
  }

  /** The texts the form displays for a list of messages. */
  function Texts<T>(xs: seq<T>, text: T -> string): (ts: seq<string>)
    ensures |ts| == |xs|
    ensures forall i | 0 <= i < |xs| :: ts[i] == text(xs[i])
  {
    seq(|xs|, i requires 0 <= i < |xs| => text(xs[i]))
  }
}
