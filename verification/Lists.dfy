/** Lists as the proofs take them apart: joining, counting and sorting. */
module Lists {

  lemma NonEmpty<T>(s: seq<T>)
    ensures s != [] <==> exists x :: x in s
  {
    if s != [] {
      assert s[0] in s;
    }
  }

  lemma Joined<T>(a: seq<T>, b: seq<T>, c: seq<T>)
    ensures (a + b) + c == a + (b + c)
  {
  }

  lemma AddLast<T>(rest: seq<T>, last: T, all: seq<T>)
    requires all == rest + [last]
    ensures multiset(all) == multiset(rest) + multiset{last}
  {
  }

  /** One more element, put into exactly one of three bags. */
  lemma OneOfThree<T>(a: multiset<T>, b: multiset<T>, c: multiset<T>, x: T, f: bool, g: bool, h: bool)
    requires (f && !g && !h) || (!f && g && !h) || (!f && !g && h)
    ensures (a + if f then multiset{x} else multiset{}) + (b + if g then multiset{x} else multiset{})
            + (c + if h then multiset{x} else multiset{}) == a + b + c + multiset{x}
  {
  }

  lemma SameMembers<T>(a: seq<T>, b: seq<T>)
    requires multiset(a) == multiset(b)
    ensures |a| == |b| && forall x :: x in a <==> x in b
  {
    assert |a| == |multiset(a)| == |multiset(b)| == |b|;
    forall x ensures x in a <==> x in b {
      assert x in a <==> x in multiset(a);
      assert x in b <==> x in multiset(b);
    }
  }

  // ----- sorting ------------------------------------------------------------------------

  /** `x` put behind every element that does not sort after it. */
  function Insert<T>(xs: seq<T>, x: T, leq: (T, T) -> bool): seq<T> {
    if xs == [] || leq(xs[|xs| - 1], x) then xs + [x]
    else Insert(xs[..|xs| - 1], x, leq) + [xs[|xs| - 1]]
  }

  /** Python's `sort` and `sorted`: elements that sort alike stay in their order. */
  function Sort<T>(xs: seq<T>, leq: (T, T) -> bool): seq<T> {
    if xs == [] then [] else Insert(Sort(xs[..|xs| - 1], leq), xs[|xs| - 1], leq)
  }

  lemma {:induction false} InsertKeeps<T>(xs: seq<T>, x: T, leq: (T, T) -> bool)
    ensures multiset(Insert(xs, x, leq)) == multiset(xs) + multiset{x}
  {
    if xs != [] && !leq(xs[|xs| - 1], x) {
      var rest, last := xs[..|xs| - 1], xs[|xs| - 1];
      assert xs == rest + [last];
      InsertKeeps(rest, x, leq);
    }
  }

  /** Sorting loses nothing and adds nothing. */
  lemma {:induction false} SortKeeps<T>(xs: seq<T>, leq: (T, T) -> bool)
    ensures multiset(Sort(xs, leq)) == multiset(xs)
  {
    if xs != [] {
      var rest, last := xs[..|xs| - 1], xs[|xs| - 1];
      assert xs == rest + [last];
      SortKeeps(rest, leq);
      InsertKeeps(Sort(rest, leq), last, leq);
    }
  }

  ghost predicate Ordered<T>(xs: seq<T>, leq: (T, T) -> bool) {
    forall i, j :: 0 <= i < j < |xs| ==> leq(xs[i], xs[j])
  }

  /** Total and transitive: what sorting by a key compares with. */
  ghost predicate Preorder<T(!new)>(leq: (T, T) -> bool) {
    && (forall a, b :: leq(a, b) || leq(b, a))
    && (forall a, b, c :: leq(a, b) && leq(b, c) ==> leq(a, c))
  }

  ghost predicate AllUpTo<T>(xs: seq<T>, last: T, leq: (T, T) -> bool) {
    forall x :: x in xs ==> leq(x, last)
  }

  lemma AppendOrdered<T>(xs: seq<T>, last: T, leq: (T, T) -> bool)
    requires Ordered(xs, leq) && AllUpTo(xs, last, leq)
    ensures Ordered(xs + [last], leq)
  {
  }

  lemma OrderedUpTo<T(!new)>(xs: seq<T>, last: T, leq: (T, T) -> bool)
    requires Preorder(leq) && Ordered(xs, leq) && (xs == [] || leq(xs[|xs| - 1], last))
    ensures AllUpTo(xs, last, leq)
  {
    forall i | 0 <= i < |xs| ensures leq(xs[i], last) {
      assert i < |xs| - 1 ==> leq(xs[i], xs[|xs| - 1]);
    }
  }

  lemma InsertMembers<T>(xs: seq<T>, x: T, leq: (T, T) -> bool)
    ensures forall y :: y in Insert(xs, x, leq) ==> y in xs || y == x
  {
    InsertKeeps(xs, x, leq);
    forall y | y in Insert(xs, x, leq) ensures y in xs || y == x {
      assert y in multiset(Insert(xs, x, leq));
    }
  }

  lemma {:induction false} InsertOrdered<T(!new)>(xs: seq<T>, x: T, leq: (T, T) -> bool)
    requires Preorder(leq) && Ordered(xs, leq)
    ensures Ordered(Insert(xs, x, leq), leq)
  {
    if xs == [] || leq(xs[|xs| - 1], x) {
      OrderedUpTo(xs, x, leq);
      AppendOrdered(xs, x, leq);
    } else {
      var rest, last := xs[..|xs| - 1], xs[|xs| - 1];
      InsertOrdered(rest, x, leq);
      InsertMembers(rest, x, leq);
      assert AllUpTo(rest, last, leq);
      AppendOrdered(Insert(rest, x, leq), last, leq);
    }
  }

  lemma {:induction false} SortOrders<T(!new)>(xs: seq<T>, leq: (T, T) -> bool)
    requires Preorder(leq)
    ensures Ordered(Sort(xs, leq), leq)
  {
    if xs != [] {
      SortOrders(xs[..|xs| - 1], leq);
      InsertOrdered(Sort(xs[..|xs| - 1], leq), xs[|xs| - 1], leq);
    }
  }

  lemma {:induction false} SortOfOrdered<T>(xs: seq<T>, leq: (T, T) -> bool)
    requires Ordered(xs, leq)
    ensures Sort(xs, leq) == xs
  {
    if xs != [] {
      var rest, last := xs[..|xs| - 1], xs[|xs| - 1];
      assert xs == rest + [last];
      SortOfOrdered(rest, leq);
    }
  }
}
