/**
  Grouping of a sequence by a key, as the program does twice with a
  Dictionary whose values are lists: words by length (Program.cs, lines
  12-20) and candidate words by occurrence pattern (lines 94-106).

  A .NET Dictionary to which entries are only added enumerates its keys in
  the order they were first added, so a dictionary is modelled as the
  sequence of its keys in that order together with a `map`.
*/
module Grouping {

  /** The elements of `xs` whose key is `k`, in their original order. */
  function Group<T, K(==)>(xs: seq<T>, key: T -> K, k: K): seq<T>
  {
    if xs == [] then []
    else Group(xs[..|xs| - 1], key, k) + (if key(xs[|xs| - 1]) == k then [xs[|xs| - 1]] else [])
  }

  /** The distinct keys of `xs`, in the order in which they first occur. */
  function Keys<T, K(==)>(xs: seq<T>, key: T -> K): seq<K>
  {
    if xs == [] then []
    else
      var ks := Keys(xs[..|xs| - 1], key);
      if key(xs[|xs| - 1]) in ks then ks else ks + [key(xs[|xs| - 1])]
  }

  /** The dictionary that the grouping loop builds: each key to its group. */
  function GroupMap<T, K(==)>(xs: seq<T>, key: T -> K): map<K, seq<T>>
  {
    map k | k in Keys(xs, key) :: Group(xs, key, k)
  }

  predicate Distinct<K(==)>(ks: seq<K>)
  {
    forall i, j :: 0 <= i < j < |ks| ==> ks[i] != ks[j]
  }

  /** The `i`-th key of a distinct sequence occurs neither before nor after `i`. */
  lemma DistinctAt<K>(ks: seq<K>, i: nat)
    requires Distinct(ks) && i < |ks|
    ensures ks[i] !in ks[..i] && ks[i] !in ks[i + 1..]
  {
  }

  /** Total number of elements held under the keys `ks` of `m`. */
  function SumSizes<K(==), V>(ks: seq<K>, m: map<K, seq<V>>): nat
    requires forall k :: k in ks ==> k in m
  {
    if ks == [] then 0 else SumSizes(ks[..|ks| - 1], m) + |m[ks[|ks| - 1]]|
  }

  lemma {:induction false} SumSizesCons<K, V>(ks: seq<K>, m: map<K, seq<V>>)
    requires forall k :: k in ks ==> k in m
    requires ks != []
    ensures SumSizes(ks, m) == |m[ks[0]]| + SumSizes(ks[1..], m)
  {
    if |ks| > 1 {
      var init := ks[..|ks| - 1];
      assert init[1..] == ks[1..][..|ks| - 2];
      SumSizesCons(init, m);
    }
  }

  lemma {:induction false} SumSizesSame<K, V>(ks: seq<K>, m1: map<K, seq<V>>, m2: map<K, seq<V>>)
    requires forall k :: k in ks ==> k in m1 && k in m2 && m1[k] == m2[k]
    ensures SumSizes(ks, m1) == SumSizes(ks, m2)
  {
    if ks != [] {
      SumSizesSame(ks[..|ks| - 1], m1, m2);
    }
  }

  /** With no empty list under them, keys hold nothing only when there are none. */
  lemma {:induction false} SumSizesZero<K, V>(ks: seq<K>, m: map<K, seq<V>>)
    requires forall k :: k in ks ==> k in m && m[k] != []
    ensures SumSizes(ks, m) == 0 <==> ks == []
  {
    if ks != [] {
      SumSizesZero(ks[..|ks| - 1], m);
    }
  }

  // Appending one element: the step of the grouping loop.

  lemma GroupAppend<T, K>(xs: seq<T>, x: T, key: T -> K, k: K)
    ensures Group(xs + [x], key, k) == Group(xs, key, k) + (if key(x) == k then [x] else [])
  {
    assert (xs + [x])[..|xs|] == xs;
  }

  lemma KeysAppend<T, K>(xs: seq<T>, x: T, key: T -> K)
    ensures Keys(xs + [x], key) == if key(x) in Keys(xs, key) then Keys(xs, key) else Keys(xs, key) + [key(x)]
  {
    assert (xs + [x])[..|xs|] == xs;
  }

  /** Adding an element to the dictionary either appends it to the list of
      an existing key or inserts a new key with a one-element list. */
  lemma GroupMapAppend<T, K>(xs: seq<T>, x: T, key: T -> K)
    ensures key(x) in GroupMap(xs, key) <==> key(x) in Keys(xs, key)
    ensures key(x) in GroupMap(xs, key) ==>
              GroupMap(xs + [x], key) == GroupMap(xs, key)[key(x) := GroupMap(xs, key)[key(x)] + [x]]
    ensures key(x) !in GroupMap(xs, key) ==>
              GroupMap(xs + [x], key) == GroupMap(xs, key)[key(x) := [x]]
  {
    KeysAppend(xs, x, key);
    var before, after := GroupMap(xs, key), GroupMap(xs + [x], key);
    forall k ensures Group(xs + [x], key, k) == Group(xs, key, k) + (if key(x) == k then [x] else []) {
      GroupAppend(xs, x, key, k);
    }
    var expected := if key(x) in Keys(xs, key) then before[key(x) := before[key(x)] + [x]] else before[key(x) := [x]];
    if key(x) !in Keys(xs, key) {
      GroupEmpty(xs, key, key(x));
    }
    assert after.Keys == expected.Keys;
    forall k | k in after ensures after[k] == expected[k] {
      assert after[k] == Group(xs + [x], key, k);
    }
    assert after == expected;
  }

  // What the groups are.

  /** An element is in the group of `k` exactly when it is in `xs` with key `k`. */
  lemma {:induction false} GroupMembers<T, K>(xs: seq<T>, key: T -> K, k: K, x: T)
    ensures x in Group(xs, key, k) <==> x in xs && key(x) == k
  {
    if xs != [] {
      var init, last := xs[..|xs| - 1], xs[|xs| - 1];
      assert xs == init + [last];
      GroupMembers(init, key, k, x);
    }
  }

  /** A group takes nothing that `xs` does not hold, counting repetitions. */
  lemma {:induction false} GroupSubMultiset<T, K>(xs: seq<T>, key: T -> K, k: K)
    ensures multiset(Group(xs, key, k)) <= multiset(xs)
  {
    if xs != [] {
      var init, last := xs[..|xs| - 1], xs[|xs| - 1];
      assert xs == init + [last];
      GroupSubMultiset(init, key, k);
    }
  }

  /** A key occurs in `Keys` exactly when some element of `xs` has it. */
  lemma {:induction false} KeysMembers<T, K>(xs: seq<T>, key: T -> K, k: K)
    ensures k in Keys(xs, key) <==> exists x :: x in xs && key(x) == k
  {
    if xs != [] {
      var init, last := xs[..|xs| - 1], xs[|xs| - 1];
      assert xs == init + [last];
      KeysMembers(init, key, k);
      if k in Keys(xs, key) {
        if k in Keys(init, key) {
          var x :| x in init && key(x) == k;
          assert x in xs;
        } else {
          assert last in xs && key(last) == k;
        }
      }
      if exists x :: x in xs && key(x) == k {
        var x :| x in xs && key(x) == k;
        if x !in init {
          assert x == last;
        }
      }
    }
  }

  lemma {:induction false} KeysDistinct<T, K>(xs: seq<T>, key: T -> K)
    ensures Distinct(Keys(xs, key))
  {
    if xs != [] {
      KeysDistinct(xs[..|xs| - 1], key);
    }
  }

  /** A key that no element carries has an empty group. */
  lemma {:induction false} GroupEmpty<T, K>(xs: seq<T>, key: T -> K, k: K)
    requires k !in Keys(xs, key)
    ensures Group(xs, key, k) == []
  {
    if xs != [] {
      GroupEmpty(xs[..|xs| - 1], key, k);
    }
  }

  /** Every key that occurs has a non-empty group. */
  lemma {:induction false} GroupNonEmpty<T, K>(xs: seq<T>, key: T -> K, k: K)
    requires k in Keys(xs, key)
    ensures Group(xs, key, k) != []
  {
    var init, last := xs[..|xs| - 1], xs[|xs| - 1];
    assert xs == init + [last];
    GroupAppend(init, last, key, k);
    if k in Keys(init, key) {
      GroupNonEmpty(init, key, k);
    }
  }

  // The groups partition `xs`: their sizes add up to |xs|.

  ghost function SumGroups<T, K>(ks: seq<K>, xs: seq<T>, key: T -> K): nat
  {
    if ks == [] then 0 else SumGroups(ks[..|ks| - 1], xs, key) + |Group(xs, key, ks[|ks| - 1])|
  }

  lemma {:induction false} SumGroupsAppend<T, K>(ks: seq<K>, xs: seq<T>, x: T, key: T -> K)
    requires Distinct(ks)
    ensures SumGroups(ks, xs + [x], key) == SumGroups(ks, xs, key) + (if key(x) in ks then 1 else 0)
  {
    if ks != [] {
      var init, last := ks[..|ks| - 1], ks[|ks| - 1];
      assert ks == init + [last];
      assert Distinct(init);
      assert last !in init;
      SumGroupsAppend(init, xs, x, key);
      GroupAppend(xs, x, key, last);
    }
  }

  lemma {:induction false} SumGroupsCover<T, K>(xs: seq<T>, key: T -> K)
    ensures SumGroups(Keys(xs, key), xs, key) == |xs|
  {
    if xs != [] {
      var init, last := xs[..|xs| - 1], xs[|xs| - 1];
      assert xs == init + [last];
      var ks := Keys(init, key);
      SumGroupsCover(init, key);
      KeysDistinct(init, key);
      SumGroupsAppend(ks, init, last, key);
      if key(last) !in ks {
        var ks' := ks + [key(last)];
        assert ks'[..|ks|] == ks;
        GroupEmpty(init, key, key(last));
        GroupAppend(init, last, key, key(last));
      }
    }
  }

  lemma {:induction false} SumSizesOfGroups<T, K>(ks: seq<K>, m: map<K, seq<T>>, xs: seq<T>, key: T -> K)
    requires forall k :: k in ks ==> k in m && m[k] == Group(xs, key, k)
    ensures SumSizes(ks, m) == SumGroups(ks, xs, key)
  {
    if ks != [] {
      SumSizesOfGroups(ks[..|ks| - 1], m, xs, key);
    }
  }

  /** The grouping dictionary is an exact partition of `xs`: every element
      lies in the group of its own key and in no other. */
  lemma GroupMapPartition<T, K>(xs: seq<T>, key: T -> K)
    ensures forall x :: x in xs ==> key(x) in GroupMap(xs, key) && x in GroupMap(xs, key)[key(x)]
    ensures forall k, x :: k in GroupMap(xs, key) && x in GroupMap(xs, key)[k] ==> x in xs && key(x) == k
  {
    forall x | x in xs ensures key(x) in GroupMap(xs, key) && x in GroupMap(xs, key)[key(x)] {
      KeysMembers(xs, key, key(x));
      GroupMembers(xs, key, key(x), x);
    }
    forall k, x | k in GroupMap(xs, key) && x in GroupMap(xs, key)[k] ensures x in xs && key(x) == k {
      GroupMembers(xs, key, k, x);
    }
  }

  /** The group sizes of the grouping dictionary add up to |xs|. */
  lemma GroupMapSizes<T, K>(xs: seq<T>, key: T -> K)
    ensures SumSizes(Keys(xs, key), GroupMap(xs, key)) == |xs|
  {
    SumSizesOfGroups(Keys(xs, key), GroupMap(xs, key), xs, key);
    SumGroupsCover(xs, key);
  }
}
