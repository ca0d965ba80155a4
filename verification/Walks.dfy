/** Walking the keys of an unordered map: some duplicate-free order, and what does not depend on it. */
module Walks {
  lemma Associative<A>(a: seq<A>, b: seq<A>, c: seq<A>)
    ensures a + b + c == a + (b + c)
  {
  }

  /** A duplicate-free list of exactly the given elements. */
  ghost predicate Enumerates<A(!new)>(order: seq<A>, elements: set<A>) {
    && (forall n :: n in order <==> n in elements)
    && forall i, j :: 0 <= i < j < |order| ==> order[i] != order[j]
  }

  /** The outputs of visiting the elements one after the other. */
  function FlatMap<A, B>(f: A -> seq<B>, order: seq<A>): seq<B> {
    if order == [] then [] else FlatMap(f, order[..|order| - 1]) + f(order[|order| - 1])
  }

  lemma FlatMapNext<A, B>(f: A -> seq<B>, order: seq<A>, n: A)
    ensures FlatMap(f, order + [n]) == FlatMap(f, order) + f(n)
  {
    assert (order + [n])[..|order|] == order;
  }

  lemma FlatMapOne<A, B>(f: A -> seq<B>, n: A)
    ensures FlatMap(f, [n]) == f(n)
  {
    assert [n][..0] == [];
  }

  lemma {:induction false} FlatMapAppend<A, B>(f: A -> seq<B>, a: seq<A>, b: seq<A>)
    ensures FlatMap(f, a + b) == FlatMap(f, a) + FlatMap(f, b)
  {
    if b == [] {
      assert a + b == a;
    } else {
      var front, last := b[..|b| - 1], b[|b| - 1];
      FlatMapAppend(f, a, front);
      assert a + b == (a + front) + [last];
      FlatMapNext(f, a + front, last);
      Associative(FlatMap(f, a), FlatMap(f, front), f(last));
    }
  }

  /** A walk that visits n and serves it when it is among the wanted elements. */
  lemma EnumeratesVisit<A(!new)>(order: seq<A>, wanted: set<A>, remaining: set<A>, n: A)
    requires Enumerates(order, wanted - remaining) && n in remaining
    ensures Enumerates(if n in wanted then order + [n] else order, wanted - (remaining - {n}))
  {
  }

  lemma EnumeratesRemove<A(!new)>(order: seq<A>, elements: set<A>, i: nat)
    requires Enumerates(order, elements) && i < |order|
    ensures Enumerates(Without(order, i), elements - {order[i]})
  {
    var rest := Without(order, i);
    forall n
      ensures n in rest <==> n in elements - {order[i]}
    {
      if n in elements && n != order[i] {
        var k :| 0 <= k < |order| && order[k] == n;
        assert k < i ==> rest[k] == n;
        assert k > i ==> rest[k - 1] == n;
      }
    }
  }

  lemma Around<A>(s: seq<A>, i: nat)
    requires i < |s|
    ensures s == (s[..i] + [s[i]]) + s[i + 1..]
  {
  }

  /** The outputs as a bag. */
  ghost function Bag<A, B>(f: A -> seq<B>, order: seq<A>): multiset<B> {
    if order == [] then multiset{} else Bag(f, order[..|order| - 1]) + multiset(f(order[|order| - 1]))
  }

  lemma {:induction false} BagOfOutputs<A, B>(f: A -> seq<B>, order: seq<A>)
    ensures multiset(FlatMap(f, order)) == Bag(f, order)
  {
    if order != [] {
      BagOfOutputs(f, order[..|order| - 1]);
    }
  }

  function Without<A>(order: seq<A>, i: nat): seq<A>
    requires i < |order|
  {
    order[..i] + order[i + 1..]
  }

  lemma WithoutNext<A>(order: seq<A>, i: nat)
    requires i < |order| - 1
    ensures var front, rest := order[..|order| - 1], Without(order, i);
            |rest| == |order| - 1 && rest[..|rest| - 1] == Without(front, i)
            && rest[|rest| - 1] == order[|order| - 1] && front[i] == order[i]
  {
  }

  /** Taking one element out of the list takes its outputs out of the bag. */
  lemma {:induction false} BagWithout<A, B>(f: A -> seq<B>, order: seq<A>, i: nat)
    requires i < |order|
    ensures Bag(f, order) == Bag(f, Without(order, i)) + multiset(f(order[i]))
  {
    var front := order[..|order| - 1];
    if i == |front| {
      assert Without(order, i) == front;
    } else {
      WithoutNext(order, i);
      BagWithout(f, front, i);
    }
  }

  lemma HeadIsMember<A>(order: seq<A>)
    ensures order != [] ==> order[0] in order
  {
  }

  lemma {:induction false} BagOrderFree<A(!new), B>(f: A -> seq<B>, a: seq<A>, b: seq<A>, elements: set<A>)
    requires Enumerates(a, elements) && Enumerates(b, elements)
    ensures Bag(f, a) == Bag(f, b)
    decreases |a|
  {
    HeadIsMember(a);
    HeadIsMember(b);
    if a != [] {
      var i :| 0 <= i < |b| && b[i] == a[0];
      BagWithout(f, a, 0);
      BagWithout(f, b, i);
      EnumeratesRemove(a, elements, 0);
      EnumeratesRemove(b, elements, i);
      BagOrderFree(f, Without(a, 0), Without(b, i), elements - {a[0]});
    }
  }

  /** The bag of outputs does not depend on the order a hash map happens to be walked in. */
  lemma OrderFree<A(!new), B>(f: A -> seq<B>, a: seq<A>, b: seq<A>, elements: set<A>)
    requires Enumerates(a, elements) && Enumerates(b, elements)
    ensures multiset(FlatMap(f, a)) == multiset(FlatMap(f, b))
  {
    BagOfOutputs(f, a);
    BagOfOutputs(f, b);
    BagOrderFree(f, a, b, elements);
  }
}
