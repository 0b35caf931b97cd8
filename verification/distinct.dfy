/** The insertion-ordered, duplicate-free collection the scraper builds twice:
    the tag list of an article (a list with a `not in` check) and the batch of
    new feed links of a pass (a list guarded by the `processed_urls` set). */
module Distinct {

  /** No element occurs twice. */
  predicate NoDup<T(==)>(s: seq<T>) {
    forall i, j :: 0 <= i < j < |s| ==> s[i] != s[j]
  }

  /** The elements of a sequence, as a set. */
  function Elems<T>(s: seq<T>): set<T> {
    set x | x in s
  }

  /** The position of the first occurrence of `x` in `s`. */
  function IndexOf<T(==)>(s: seq<T>, x: T): (k: nat)
    requires x in s
    ensures k < |s| && s[k] == x
    ensures forall j :: 0 <= j < k ==> s[j] != x
  {
    if s[0] == x then 0 else 1 + IndexOf(s[1..], x)
  }

  /** Past a head element different from `x`, the first occurrence of `x`
      moves by one. */
  lemma IndexOfTail<T>(s: seq<T>, x: T)
    requires x in s && s[0] != x
    ensures x in s[1..] && IndexOf(s, x) == 1 + IndexOf(s[1..], x)
  {
  }

  /** `r` lists the elements of `xs` not in `seen`, each once, in the order
      of their first occurrence in `xs`. */
  predicate Dedups<T(==)>(seen: set<T>, xs: seq<T>, r: seq<T>) {
    && NoDup(r)
    && (forall i :: 0 <= i < |r| ==> r[i] in xs && r[i] !in seen)
    && (forall i :: 0 <= i < |xs| && xs[i] !in seen ==> xs[i] in r)
    && (forall i, j :: 0 <= i < j < |r| ==> IndexOf(xs, r[i]) < IndexOf(xs, r[j]))
  }

  /** A seen head adds nothing to the list of the tail. */
  lemma DedupsSkip<T>(seen: set<T>, xs: seq<T>, r: seq<T>)
    requires xs != [] && xs[0] in seen && Dedups(seen, xs[1..], r)
    ensures Dedups(seen, xs, r)
  {
    forall i | 0 <= i < |r| ensures IndexOf(xs, r[i]) == 1 + IndexOf(xs[1..], r[i]) {
      IndexOfTail(xs, r[i]);
    }
  }

  /** An unseen head goes first, before the list of the tail in which it
      counts as seen. */
  lemma DedupsKeep<T>(seen: set<T>, xs: seq<T>, rest: seq<T>)
    requires xs != [] && xs[0] !in seen && Dedups(seen + {xs[0]}, xs[1..], rest)
    ensures Dedups(seen, xs, [xs[0]] + rest)
  {
    forall i | 0 <= i < |rest| ensures IndexOf(xs, rest[i]) == 1 + IndexOf(xs[1..], rest[i]) {
      IndexOfTail(xs, rest[i]);
    }
  }

  /** The elements of `xs` not in `seen`, each once, in the order of their
      first occurrence in `xs`: what a left-to-right loop appending every
      element that is neither seen nor already appended produces. */
  function Fresh<T(==)>(seen: set<T>, xs: seq<T>): (r: seq<T>)
    ensures NoDup(r)
    ensures forall i :: 0 <= i < |r| ==> r[i] in xs && r[i] !in seen
    ensures forall i :: 0 <= i < |xs| && xs[i] !in seen ==> xs[i] in r
    ensures forall i, j :: 0 <= i < j < |r| ==> IndexOf(xs, r[i]) < IndexOf(xs, r[j])
    decreases |xs|
  {
    if xs == [] then []
    else if xs[0] in seen then
      var r := Fresh(seen, xs[1..]);
      DedupsSkip(seen, xs, r);
      r
    else
      var rest := Fresh(seen + {xs[0]}, xs[1..]);
      DedupsKeep(seen, xs, rest);
      [xs[0]] + rest
  }

  /** The tail of a duplicate-free list none of whose elements was seen is
      again such a list, once its head counts as seen. */
  lemma UnseenTail<T>(seen: set<T>, xs: seq<T>)
    requires xs != [] && NoDup(xs) && forall i :: 0 <= i < |xs| ==> xs[i] !in seen
    ensures NoDup(xs[1..]) && forall i :: 0 <= i < |xs| - 1 ==> xs[1..][i] !in seen + {xs[0]}
  {
    assert forall i :: 0 <= i < |xs| - 1 ==> xs[1..][i] == xs[i + 1];
  }

  /** A duplicate-free list none of whose elements was seen is kept whole,
      in its own order. */
  lemma {:induction false} FreshOfDistinct<T>(seen: set<T>, xs: seq<T>)
    requires NoDup(xs) && forall i :: 0 <= i < |xs| ==> xs[i] !in seen
    ensures Fresh(seen, xs) == xs
    decreases |xs|
  {
    if xs != [] {
      UnseenTail(seen, xs);
      FreshOfDistinct(seen + {xs[0]}, xs[1..]);
      assert xs == [xs[0]] + xs[1..];
    }
  }

  /** An element given twice, and not seen before, is kept once. */
  lemma FreshOfPair<T>(seen: set<T>, x: T)
    requires x !in seen
    ensures Fresh(seen, [x, x]) == [x]
  {
    assert [x][1..] == [];
    assert Fresh(seen + {x}, [x]) == Fresh(seen + {x}, []) == [];
    assert [x, x][1..] == [x];
  }

  /** Joining two duplicate-free sequences with no element in common gives a
      duplicate-free sequence. */
  lemma NoDupJoin<T>(a: seq<T>, b: seq<T>)
    requires NoDup(a) && NoDup(b)
    requires forall x :: x in a ==> x !in b
    ensures NoDup(a + b)
  {
    var c := a + b;
    forall i, j | 0 <= i < j < |c| ensures c[i] != c[j] {
      if i < |a| && j >= |a| {
        assert c[i] in a && c[j] == b[j - |a|];
      }
    }
  }
}
