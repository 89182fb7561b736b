/** Multisets of identifiers gathered over a list. Operations are described by
    what they add to or take from the bag; uniqueness then follows.
 */
module Bags {
  import opened Basics
  import opened Layout

  ghost function Bag<T>(f: T -> multiset<U32>, s: seq<T>): multiset<U32> {
    if s == [] then multiset{} else f(s[0]) + Bag(f, s[1..])
  }

  lemma {:induction false} BagAppend<T>(f: T -> multiset<U32>, a: seq<T>, b: seq<T>)
    ensures Bag(f, a + b) == Bag(f, a) + Bag(f, b)
  {
    if a == [] {
      assert a + b == b;
    } else {
      assert (a + b)[1..] == a[1..] + b;
      BagAppend(f, a[1..], b);
    }
  }

  lemma BagOne<T>(f: T -> multiset<U32>, x: T)
    ensures Bag(f, [x]) == f(x)
  {
  }

  lemma BagSplit<T>(f: T -> multiset<U32>, s: seq<T>, i: nat)
    requires i < |s|
    ensures Bag(f, s) == Bag(f, s[..i]) + f(s[i]) + Bag(f, s[i + 1..])
  {
    hide Bag;
    assert s == s[..i] + ([s[i]] + s[i + 1..]);
    BagAppend(f, s[..i], [s[i]] + s[i + 1..]);
    BagAppend(f, [s[i]], s[i + 1..]);
    BagOne(f, s[i]);
  }

  /** Replacing one element trades its share of the bag. */
  lemma BagUpdate<T>(f: T -> multiset<U32>, s: seq<T>, i: nat, x: T)
    requires i < |s|
    ensures Bag(f, s[i := x]) + f(s[i]) == Bag(f, s) + f(x)
    ensures f(s[i]) <= Bag(f, s)
  {
    hide Bag;
    BagSplit(f, s, i);
    BagSplit(f, s[i := x], i);
    assert s[i := x][..i] == s[..i] && s[i := x][i + 1..] == s[i + 1..];
  }

  /** Removing one element takes its share out of the bag. */
  lemma BagRemove<T>(f: T -> multiset<U32>, s: seq<T>, i: nat)
    requires i < |s|
    ensures Bag(f, s[..i] + s[i + 1..]) + f(s[i]) == Bag(f, s)
  {
    hide Bag;
    BagSplit(f, s, i);
    BagAppend(f, s[..i], s[i + 1..]);
  }

  ghost predicate NoRepeats(b: multiset<U32>) {
    forall p :: b[p] <= 1
  }

  /** In a bag without repetitions no identifier comes from two elements. */
  lemma NotTwice<T>(f: T -> multiset<U32>, s: seq<T>, i: nat, j: nat, p: U32)
    requires NoRepeats(Bag(f, s)) && i < |s| && j < |s|
    requires p in f(s[i]) && p in f(s[j])
    ensures i == j
  {
    hide Bag;
    if i < j {
      NotTwiceOrdered(f, s, i, j, p);
    } else if j < i {
      NotTwiceOrdered(f, s, j, i, p);
    }
  }

  lemma NotTwiceOrdered<T>(f: T -> multiset<U32>, s: seq<T>, i: nat, j: nat, p: U32)
    requires i < j < |s| && p in f(s[i]) && p in f(s[j])
    ensures Bag(f, s)[p] >= 2
  {
    hide Bag;
    BagSplit(f, s, i);
    BagSplit(f, s[i + 1..], j - i - 1);
    assert s[i + 1..][j - i - 1] == s[j];
  }

  lemma NoRepeatsIn<T>(f: T -> multiset<U32>, s: seq<T>, i: nat)
    requires NoRepeats(Bag(f, s)) && i < |s|
    ensures NoRepeats(f(s[i]))
  {
    hide Bag;
    BagUpdate(f, s, i, s[i]);
  }

  /** A sequence without duplicates is a bag without repetitions. */
  lemma {:induction false} NoDupNoRepeats(ids: seq<U32>)
    ensures NoDup(ids) <==> NoRepeats(multiset(ids))
  {
    if ids == [] {
    } else {
      var rest := ids[1..];
      assert ids == [ids[0]] + rest;
      NoDupConcat([ids[0]], rest);
      NoDupNoRepeats(rest);
      var b, c := multiset(ids), multiset(rest);
      assert b == multiset{ids[0]} + c;
      assert ids[0] in [ids[0]];
      if NoDup(ids) {
        assert c[ids[0]] == 0;
      }
      if NoRepeats(b) {
        forall p ensures c[p] <= 1 { assert b[p] <= 1; }
        assert b[ids[0]] <= 1;
      }
    }
  }
}
