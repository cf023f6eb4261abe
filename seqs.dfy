/** Sequence helpers shared by the directory scan.  The list comprehensions
    `[x for x in xs if keep(x)]` of the indexer are instances of `Filter`;
    a `for` loop whose body appends `f(x)` to a list leaves `Concat(f, xs)`
    appended to it. */
module Seqs {

  /** The elements of `s` that satisfy `keep`, in their original order.
      Defined on the last element so that a loop over a prefix unfolds it directly. */
  function Filter<T>(keep: T -> bool, s: seq<T>): (r: seq<T>)
    ensures |r| <= |s|
    ensures forall k :: 0 <= k < |r| ==> keep(r[k])
  {
    if s == [] then []
    else
      var init := Filter(keep, s[..|s| - 1]);
      assert s == s[..|s| - 1] + [s[|s| - 1]];
      if keep(s[|s| - 1]) then init + [s[|s| - 1]] else init
  }

  /** The result holds exactly the elements of `s` that satisfy `keep`. */
  lemma {:induction false} FilterMembers<T>(keep: T -> bool, s: seq<T>, x: T)
    ensures x in Filter(keep, s) <==> x in s && keep(x)
  {
    if s != [] {
      assert s == s[..|s| - 1] + [s[|s| - 1]];
      FilterMembers(keep, s[..|s| - 1], x);
    }
  }

  /** Nothing is kept when no element qualifies. */
  lemma FilterNone<T>(keep: T -> bool, s: seq<T>)
    requires forall x :: x in s ==> !keep(x)
    ensures Filter(keep, s) == []
  {
    var r := Filter(keep, s);
    if r != [] {
      FilterMembers(keep, s, r[0]);
    }
  }

  /** Filtering distributes over concatenation, so filtering keeps the order of `s`. */
  lemma {:induction false} FilterAppend<T>(keep: T -> bool, a: seq<T>, b: seq<T>)
    ensures Filter(keep, a + b) == Filter(keep, a) + Filter(keep, b)
  {
    if b != [] {
      var b' := b[..|b| - 1];
      assert (a + b)[..|a + b| - 1] == a + b';
      assert (a + b)[|a + b| - 1] == b[|b| - 1];
      FilterAppend(keep, a, b');
    } else {
      assert a + b == a;
    }
  }

  /** `f(s[0]) + f(s[1]) + ...`: the blocks `f` gives for the elements of `s`, in order. */
  function Concat<T, U>(f: T -> seq<U>, s: seq<T>): seq<U> {
    if s == [] then [] else Concat(f, s[..|s| - 1]) + f(s[|s| - 1])
  }

  /** `g(s[0]) + g(s[1]) + ...` for a count `g`. */
  function Sum<T>(g: T -> nat, s: seq<T>): nat {
    if s == [] then 0 else Sum(g, s[..|s| - 1]) + g(s[|s| - 1])
  }

  /** One more element appends its block. */
  lemma ConcatSnoc<T, U>(f: T -> seq<U>, s: seq<T>, x: T)
    ensures Concat(f, s + [x]) == Concat(f, s) + f(x)
  {
    assert (s + [x])[..|s|] == s;
  }

  /** The same, for a loop that has visited `s[..i]` and now visits `s[i]`. */
  lemma ConcatPrefix<T, U>(f: T -> seq<U>, s: seq<T>, i: nat)
    requires i < |s|
    ensures Concat(f, s[..i + 1]) == Concat(f, s[..i]) + f(s[i])
  {
    assert s[..i + 1][..i] == s[..i];
  }

  /** Appending to a list that already holds `a + b`. */
  lemma AppendAssoc<T>(a: seq<T>, b: seq<T>, c: seq<T>)
    ensures (a + b) + c == a + (b + c)
  {
  }

  /** Having visited the prefix of full length is having visited all of `s`. */
  lemma TakeAll<T>(s: seq<T>)
    ensures s[..|s|] == s
  {
  }

  lemma {:induction false} ConcatAppend<T, U>(f: T -> seq<U>, a: seq<T>, b: seq<T>)
    ensures Concat(f, a + b) == Concat(f, a) + Concat(f, b)
  {
    if b == [] {
      assert a + b == a;
    } else {
      var b', x := b[..|b| - 1], b[|b| - 1];
      assert b == b' + [x];
      assert a + b == (a + b') + [x];
      ConcatAppend(f, a, b');
      ConcatSnoc(f, a + b', x);
      ConcatSnoc(f, b', x);
    }
  }

  /** An element of the result comes from the block of some element of `s`, and
      every block is part of the result. */
  lemma {:induction false} ConcatMembers<T(!new), U>(f: T -> seq<U>, s: seq<T>, y: U)
    ensures y in Concat(f, s) <==> exists x :: x in s && y in f(x)
  {
    if s != [] {
      var s', x := s[..|s| - 1], s[|s| - 1];
      assert s == s' + [x];
      ConcatMembers(f, s', y);
    }
  }

  /** The length of the result is the sum of the blocks' lengths. */
  lemma {:induction false} ConcatLength<T, U>(f: T -> seq<U>, g: T -> nat, s: seq<T>)
    requires forall x :: g(x) == |f(x)|
    ensures |Concat(f, s)| == Sum(g, s)
  {
    if s != [] {
      ConcatLength(f, g, s[..|s| - 1]);
    }
  }

  /** Concatenating the blocks of blocks is concatenating, per element, the
      blocks of its blocks. */
  lemma {:induction false} ConcatFlatten<T, M, U>(g: M -> seq<U>, h: T -> seq<M>, k: T -> seq<U>, s: seq<T>)
    requires forall x :: k(x) == Concat(g, h(x))
    ensures Concat(g, Concat(h, s)) == Concat(k, s)
  {
    if s != [] {
      var s', x := s[..|s| - 1], s[|s| - 1];
      ConcatFlatten(g, h, k, s');
      ConcatAppend(g, Concat(h, s'), h(x));
    }
  }

  /** Two filters that disagree only on elements whose block is empty give the
      same concatenation. */
  lemma {:induction false} ConcatFilterIrrelevant<T, U>(f: T -> seq<U>, keep1: T -> bool, keep2: T -> bool, s: seq<T>)
    requires forall x :: keep1(x) != keep2(x) ==> f(x) == []
    ensures Concat(f, Filter(keep1, s)) == Concat(f, Filter(keep2, s))
  {
    if s != [] {
      var s', x := s[..|s| - 1], s[|s| - 1];
      ConcatFilterIrrelevant(f, keep1, keep2, s');
      if keep1(x) {
        ConcatSnoc(f, Filter(keep1, s'), x);
      }
      if keep2(x) {
        ConcatSnoc(f, Filter(keep2, s'), x);
      }
    }
  }
}
