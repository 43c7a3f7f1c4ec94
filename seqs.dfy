/** Sequence helpers: JavaScript's `Array.prototype.flat()`, and gathering
    the parts produced for each element in order. */
module Seqs {

  /** `xss.flat()`: the concatenation of the inner sequences, in order. */
  function Flat<T>(xss: seq<seq<T>>): seq<T>
  {
    if |xss| == 0 then [] else xss[0] + Flat(xss[1..])
  }

  /** Flattening distributes over concatenation. */
  lemma {:induction false} FlatAppend<T>(a: seq<seq<T>>, b: seq<seq<T>>)
    ensures Flat(a + b) == Flat(a) + Flat(b)
  {
    if |a| == 0 {
      assert a + b == b;
    } else {
      assert (a + b)[1..] == a[1..] + b;
      FlatAppend(a[1..], b);
    }
  }

  /** Extending the prefix of length `i` by the element at `i`. */
  lemma PrefixSnoc<T>(s: seq<T>, i: nat)
    requires i < |s|
    ensures s[..i] + [s[i]] == s[..i + 1]
  {
  }

  /** The element at `j` occurs at least twice exactly when it occurs at
      another index too. */
  lemma RepeatedElsewhere<T>(s: seq<T>, j: nat)
    requires j < |s|
    ensures multiset(s)[s[j]] >= 2 <==> exists i :: 0 <= i < |s| && i != j && s[i] == s[j]
  {
    var x := s[j];
    var before, after := s[..j], s[j + 1..];
    assert s == before + [x] + after;
    assert multiset(s)[x] == multiset(before)[x] + 1 + multiset(after)[x];
    if multiset(s)[x] >= 2 {
      if x in before {
        var i :| 0 <= i < j && before[i] == x;
        assert s[i] == x;
      } else {
        assert x in multiset(after);
        var i :| 0 <= i < |after| && after[i] == x;
        assert s[j + 1 + i] == x;
      }
    } else {
      forall i | 0 <= i < |s| && i != j
        ensures s[i] != x
      {
        if i < j {
          assert s[i] == before[i];
        } else {
          assert s[i] == after[i - j - 1];
        }
      }
    }
  }

  /** The concatenation of `f(x)` over the elements `x` of `xs`, in order. */
  function Gather<A, B>(xs: seq<A>, f: A -> seq<B>): seq<B>
  {
    if |xs| == 0 then [] else Gather(xs[..|xs| - 1], f) + f(xs[|xs| - 1])
  }

  /** Gathering over two runs is gathering over each, one after the other. */
  lemma {:induction false} GatherAppend<A, B>(a: seq<A>, b: seq<A>, f: A -> seq<B>)
    ensures Gather(a + b, f) == Gather(a, f) + Gather(b, f)
  {
    if |b| > 0 {
      GatherAppend(a, b[..|b| - 1], f);
      assert (a + b)[..|a + b| - 1] == a + b[..|b| - 1];
    } else {
      assert a + b == a;
    }
  }

  /** Gathering over one more element adds its own part. */
  lemma GatherSnoc<A, B>(xs: seq<A>, i: nat, f: A -> seq<B>)
    requires i < |xs|
    ensures Gather(xs[..i + 1], f) == Gather(xs[..i], f) + f(xs[i])
  {
    assert xs[..i + 1][..i] == xs[..i];
  }

  /** When each element contributes at most one part, there are at most as
      many parts as elements, and each part is the whole contribution of
      some element. */
  lemma {:induction false} GatherAtMostOne<A, B>(xs: seq<A>, f: A -> seq<B>)
    requires forall k :: 0 <= k < |xs| ==> |f(xs[k])| <= 1
    ensures |Gather(xs, f)| <= |xs|
    ensures forall t :: t in Gather(xs, f) ==> exists k :: 0 <= k < |xs| && f(xs[k]) == [t]
  {
    if |xs| > 0 {
      var init := xs[..|xs| - 1];
      assert forall k :: 0 <= k < |init| ==> init[k] == xs[k];
      GatherAtMostOne(init, f);
      forall t | t in Gather(xs, f)
        ensures exists k :: 0 <= k < |xs| && f(xs[k]) == [t]
      {
        if t !in Gather(init, f) {
          assert f(xs[|xs| - 1]) == [t];
        }
      }
    }
  }

  /** Pointwise, the lengths of two families add up to the lengths of a third:
      then so do the lengths of their flattenings. */
  lemma {:induction false} FlatLengthsAdd<A, B, C>(a: seq<seq<A>>, b: seq<seq<B>>, c: seq<seq<C>>)
    requires |a| == |b| == |c|
    requires forall k :: 0 <= k < |c| ==> |a[k]| + |b[k]| == |c[k]|
    ensures |Flat(a)| + |Flat(b)| == |Flat(c)|
  {
    if |c| > 0 {
      FlatLengthsAdd(a[1..], b[1..], c[1..]);
    }
  }
}
