/**
 The loop shape every extractor shares: walk a list, skip the items a guard rejects,
 append what the others yield. Modelled as keeping the `Some` values of a list of
 options, in order.
 */
module Collect {
  import opened Wrappers
  import opened Strings

  /** The values of the `Some` entries of `xs`, in order. */
  function Somes<T>(xs: seq<Option<T>>): (ys: seq<T>)
    ensures |ys| <= |xs|
    decreases |xs|
  {
    if xs == [] then []
    else
      match xs[0]
      case None => Somes(xs[1..])
      case Some(x) => [x] + Somes(xs[1..])
  }

  lemma SomesSingle<T>(x: Option<T>)
    ensures Somes([x]) == if x.Some? then [x.value] else []
  {
    assert [x][1..] == [];
  }

  /** Collecting distributes over concatenation: order is kept and nothing crosses the
      boundary. */
  lemma {:induction false} SomesAppend<T>(a: seq<Option<T>>, b: seq<Option<T>>)
    ensures Somes(a + b) == Somes(a) + Somes(b)
    decreases |a|
  {
    if a == [] {
      assert a + b == b;
    } else {
      assert (a + b)[0] == a[0];
      assert (a + b)[1..] == a[1..] + b;
      SomesAppend(a[1..], b);
    }
  }

  /** Everything collected comes from some entry. */
  lemma {:induction false} SomesFrom<T>(xs: seq<Option<T>>, y: T)
    requires y in Somes(xs)
    ensures exists i :: 0 <= i < |xs| && xs[i] == Some(y)
    decreases |xs|
  {
    if xs[0] != Some(y) {
      assert y in Somes(xs[1..]);
      SomesFrom(xs[1..], y);
      var i :| 0 <= i < |xs[1..]| && xs[1..][i] == Some(y);
      assert xs[i + 1] == Some(y);
    }
  }

  /** Every `Some` entry is collected. */
  lemma {:induction false} SomesHas<T>(xs: seq<Option<T>>, i: nat)
    requires i < |xs| && xs[i].Some?
    ensures xs[i].value in Somes(xs)
    decreases i
  {
    if i > 0 {
      assert xs[1..][i - 1] == xs[i];
      SomesHas(xs[1..], i - 1);
    }
  }

  /** The lists of `xss` one after another: the shape of a loop that appends what each
      item yields. */
  function Concat<T>(xss: seq<seq<T>>): (ys: seq<T>)
    decreases |xss|
  {
    if xss == [] then [] else xss[0] + Concat(xss[1..])
  }

  /** Concatenation distributes over the outer list: order is kept. */
  lemma {:induction false} ConcatAppend<T>(a: seq<seq<T>>, b: seq<seq<T>>)
    ensures Concat(a + b) == Concat(a) + Concat(b)
    decreases |a|
  {
    if a == [] {
      assert a + b == b;
    } else {
      assert (a + b)[0] == a[0];
      assert (a + b)[1..] == a[1..] + b;
      ConcatAppend(a[1..], b);
    }
  }

  /** Everything in the concatenation comes from one of the lists. */
  lemma {:induction false} ConcatFrom<T>(xss: seq<seq<T>>, y: T)
    requires y in Concat(xss)
    ensures exists i :: 0 <= i < |xss| && y in xss[i]
    decreases |xss|
  {
    if y !in xss[0] {
      ConcatFrom(xss[1..], y);
      var i :| 0 <= i < |xss[1..]| && y in xss[1..][i];
      assert xss[i + 1] == xss[1..][i];
    }
  }

  /** Everything in one of the lists is in the concatenation. */
  lemma {:induction false} ConcatHas<T>(xss: seq<seq<T>>, i: nat, y: T)
    requires i < |xss| && y in xss[i]
    ensures y in Concat(xss)
    decreases i
  {
    if i > 0 {
      assert xss[1..][i - 1] == xss[i];
      ConcatHas(xss[1..], i - 1, y);
    }
  }
}
