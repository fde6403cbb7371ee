/**
  The candidate partitioner of Program.cs, lines 91-118: every remaining
  word is filed under the list of positions at which the guessed letter
  occurs in it, and the groups holding the most words are collected.
*/
module Partitioner {
  import opened Grouping

  /** The positions of `c` in `w`, in ascending order (lines 95-100). */
  function Pattern(w: string, c: char): seq<nat>
  {
    if w == [] then []
    else Pattern(w[..|w| - 1], c) + (if w[|w| - 1] == c then [|w| - 1] else [])
  }

  /** The partition key of the guess `c`. */
  function PatternOf(c: char): string -> seq<nat>
  {
    w => Pattern(w, c)
  }

  predicate Increasing(p: seq<nat>)
  {
    forall i, j :: 0 <= i < j < |p| ==> p[i] < p[j]
  }

  /** The position list is strictly increasing and holds exactly the indices
      at which `w` has the letter `c`. */
  lemma PatternSpec(w: string, c: char)
    ensures Increasing(Pattern(w, c))
    ensures forall i: int :: i in Pattern(w, c) <==> 0 <= i < |w| && w[i] == c
  {
    PatternMembers(w, c);
    PatternIncreasing(w, c);
  }

  lemma {:induction false} PatternMembers(w: string, c: char)
    ensures forall i: int :: i in Pattern(w, c) <==> 0 <= i < |w| && w[i] == c
  {
    if w != [] {
      var init, n := w[..|w| - 1], |w| - 1;
      PatternMembers(init, c);
      assert Pattern(w, c) == Pattern(init, c) + (if w[n] == c then [n] else []);
      forall i: int ensures i in Pattern(w, c) <==> 0 <= i < |w| && w[i] == c {
        if 0 <= i < n {
          assert w[i] == init[i];
        }
      }
    }
  }

  lemma {:induction false} PatternIncreasing(w: string, c: char)
    ensures Increasing(Pattern(w, c))
  {
    if w != [] {
      var init, n := w[..|w| - 1], |w| - 1;
      PatternIncreasing(init, c);
      PatternMembers(init, c);
      var p := Pattern(init, c);
      forall j | 0 <= j < |p| ensures p[j] < n {
        assert p[j] in p;
      }
    }
  }

  /** The word has `c` exactly at the positions of the key it is filed under. */
  lemma PatternPositions(w: string, c: char, i: nat)
    requires i < |w|
    ensures w[i] == c <==> i in Pattern(w, c)
  {
    PatternSpec(w, c);
  }

  /** An increasing list is fixed by its members: the position list is the
      only increasing list of the indices where `c` occurs. */
  lemma PatternUnique(w: string, c: char, p: seq<nat>)
    requires Increasing(p)
    requires forall i: int :: i in p <==> 0 <= i < |w| && w[i] == c
    ensures p == Pattern(w, c)
  {
    PatternSpec(w, c);
    IncreasingSameMembers(p, Pattern(w, c));
  }

  /** Dropping the last element of an increasing list keeps it increasing
      and removes exactly that element, which is its largest. */
  lemma IncreasingLast(p: seq<nat>)
    requires Increasing(p) && p != []
    ensures Increasing(p[..|p| - 1])
    ensures forall x :: x in p ==> x <= p[|p| - 1]
    ensures forall x :: x in p[..|p| - 1] <==> x in p && x != p[|p| - 1]
  {
    var init := p[..|p| - 1];
    assert p == init + [p[|p| - 1]];
    assert forall j :: 0 <= j < |init| ==> init[j] < p[|p| - 1];
  }

  /** Increasing lists with the same members end in the same element. */
  lemma LastSame(p: seq<nat>, q: seq<nat>)
    requires Increasing(p) && Increasing(q) && p != [] && q != []
    requires forall i :: i in p <==> i in q
    ensures p[|p| - 1] == q[|q| - 1]
  {
    IncreasingLast(p);
    IncreasingLast(q);
    assert p[|p| - 1] in q;
    assert q[|q| - 1] in p;
  }

  lemma {:induction false} IncreasingSameMembers(p: seq<nat>, q: seq<nat>)
    requires Increasing(p) && Increasing(q)
    requires forall i :: i in p <==> i in q
    decreases |p| + |q|
    ensures p == q
  {
    assert p != [] ==> p[0] in q;
    assert q != [] ==> q[0] in p;
    if p != [] && q != [] {
      LastSame(p, q);
      IncreasingLast(p);
      IncreasingLast(q);
      var p', q' := p[..|p| - 1], q[..|q| - 1];
      forall i ensures i in p' <==> i in q' {
        assert i in p' <==> i in p && i != p[|p| - 1];
        assert i in q' <==> i in q && i != q[|q| - 1];
      }
      IncreasingSameMembers(p', q');
      assert p == p' + [p[|p| - 1]];
      assert q == q' + [q[|q| - 1]];
    }
  }

  /** Lines 95-100: collects the positions of `c` in `w`. */
  method Positions(w: string, c: char) returns (positions: seq<nat>)
    ensures positions == Pattern(w, c)
  {
    positions := [];
    for i := 0 to |w|
      invariant positions == Pattern(w[..i], c)
    {
      assert w[..i + 1][..i] == w[..i];
      if w[i] == c {
        positions := positions + [i];
      }
    }
    assert w[..|w|] == w;
  }

  /** `ListComparer.Equals` (lines 146-156): equal counts and equal elements
      position by position. */
  method ListEquals<T(==)>(x: seq<T>, y: seq<T>) returns (eq: bool)
    ensures eq <==> x == y
  {
    if |x| != |y| {
      return false;
    }
    for i := 0 to |x|
      invariant x[..i] == y[..i]
    {
      if x[i] != y[i] {
        return false;
      }
      assert x[..i + 1] == x[..i] + [x[i]];
      assert y[..i + 1] == y[..i] + [y[i]];
    }
    assert x[..|x|] == x && y[..|y|] == y;
    return true;
  }

  /** Lines 94-106: files every word under its position list. Because
      `ListComparer.Equals` is equality of lists (`ListEquals`), a dictionary
      lookup with that comparer is a lookup in a `map` keyed by sequences. */
  method Partition(words: seq<string>, c: char) returns (keys: seq<seq<nat>>, groups: map<seq<nat>, seq<string>>)
    ensures keys == Keys(words, PatternOf(c))
    ensures groups == GroupMap(words, PatternOf(c))
  {
    keys, groups := [], map[];
    for i := 0 to |words|
      invariant keys == Keys(words[..i], PatternOf(c))
      invariant groups == GroupMap(words[..i], PatternOf(c))
    {
      var word := words[i];
      var positions := Positions(word, c);
      assert words[..i + 1] == words[..i] + [word];
      assert PatternOf(c)(word) == positions;
      KeysAppend(words[..i], word, PatternOf(c));
      GroupMapAppend(words[..i], word, PatternOf(c));
      if positions in groups {
        groups := groups[positions := groups[positions] + [word]];
      } else {
        groups := groups[positions := [word]];
        keys := keys + [positions];
      }
    }
    assert words[..|words|] == words;
  }

  /** The partition is exact: every word lies in the group of its own
      position list, and every word of a group has that group's key as its
      position list. */
  lemma PartitionExact(words: seq<string>, c: char)
    ensures forall w :: w in words ==>
              Pattern(w, c) in GroupMap(words, PatternOf(c)) && w in GroupMap(words, PatternOf(c))[Pattern(w, c)]
    ensures forall k, w :: k in GroupMap(words, PatternOf(c)) && w in GroupMap(words, PatternOf(c))[k] ==>
              w in words && Pattern(w, c) == k
  {
    var key := PatternOf(c);
    forall w | w in words ensures Pattern(w, c) in GroupMap(words, key) && w in GroupMap(words, key)[Pattern(w, c)] {
      assert key(w) == Pattern(w, c);
      KeysMembers(words, key, key(w));
      GroupMembers(words, key, key(w), w);
    }
    forall k, w | k in GroupMap(words, key) && w in GroupMap(words, key)[k] ensures w in words && Pattern(w, c) == k {
      GroupMembers(words, key, k, w);
      assert key(w) == Pattern(w, c);
    }
  }

  // The groups of maximal size (lines 108-117).

  /** The size of the largest group under the keys `ks` (0 if there are none). */
  function MaxSize<K, V>(ks: seq<K>, groups: map<K, seq<V>>): nat
    requires forall k :: k in ks ==> k in groups
  {
    if ks == [] then 0
    else
      var m := MaxSize(ks[..|ks| - 1], groups);
      var s := |groups[ks[|ks| - 1]]|;
      if m < s then s else m
  }

  /** The entries of the keys `ks` whose group has exactly `size` words, in
      the order of `ks`. */
  function WithSize<K, V>(ks: seq<K>, groups: map<K, seq<V>>, size: nat): (r: seq<(K, seq<V>)>)
    requires forall k :: k in ks ==> k in groups
    ensures |r| <= |ks|
  {
    if ks == [] then []
    else
      var k := ks[|ks| - 1];
      WithSize(ks[..|ks| - 1], groups, size) + (if |groups[k]| == size then [(k, groups[k])] else [])
  }

  /** The entries the selection loop keeps: those of maximal size. */
  function Best<K, V>(ks: seq<K>, groups: map<K, seq<V>>): seq<(K, seq<V>)>
    requires forall k :: k in ks ==> k in groups
  {
    WithSize(ks, groups, MaxSize(ks, groups))
  }

  lemma {:induction false} MaxSizeBound<K, V>(ks: seq<K>, groups: map<K, seq<V>>, k: K)
    requires forall j :: j in ks ==> j in groups
    requires k in ks
    ensures |groups[k]| <= MaxSize(ks, groups)
  {
    var init := ks[..|ks| - 1];
    if k in init {
      MaxSizeBound(init, groups, k);
    }
  }

  lemma {:induction false} WithSizeMembers<K, V>(ks: seq<K>, groups: map<K, seq<V>>, size: nat, e: (K, seq<V>))
    requires forall j :: j in ks ==> j in groups
    ensures e in WithSize(ks, groups, size) <==> e.0 in ks && e.1 == groups[e.0] && |e.1| == size
  {
    if ks != [] {
      var init := ks[..|ks| - 1];
      assert ks == init + [ks[|ks| - 1]];
      WithSizeMembers(init, groups, size, e);
    }
  }

  /** No group is larger than `size`, so none has a larger size. */
  lemma {:induction false} WithSizeAbove<K, V>(ks: seq<K>, groups: map<K, seq<V>>, size: nat)
    requires forall j :: j in ks ==> j in groups
    requires MaxSize(ks, groups) < size
    ensures WithSize(ks, groups, size) == []
  {
    if ks != [] {
      WithSizeAbove(ks[..|ks| - 1], groups, size);
    }
  }

  /** The maximum is attained when there is a key. */
  lemma {:induction false} BestNonEmpty<K, V>(ks: seq<K>, groups: map<K, seq<V>>)
    requires forall j :: j in ks ==> j in groups
    requires ks != []
    ensures Best(ks, groups) != []
  {
    var init, k := ks[..|ks| - 1], ks[|ks| - 1];
    var m := MaxSize(init, groups);
    if m > |groups[k]| {
      BestNonEmpty(init, groups);
    }
  }

  /** The selected entries are exactly the groups of maximal size: every one
      of them has a key of the dictionary, its own group and the largest
      size; no group is larger; and they are non-empty whenever the
      dictionary is. */
  lemma BestSpec<K, V>(ks: seq<K>, groups: map<K, seq<V>>)
    requires forall j :: j in ks ==> j in groups
    ensures forall e :: e in Best(ks, groups) <==>
              e.0 in ks && e.1 == groups[e.0] && |e.1| == MaxSize(ks, groups)
    ensures forall k :: k in ks ==> |groups[k]| <= MaxSize(ks, groups)
    ensures ks != [] <==> Best(ks, groups) != []
  {
    forall e ensures e in Best(ks, groups) <==> e.0 in ks && e.1 == groups[e.0] && |e.1| == MaxSize(ks, groups) {
      WithSizeMembers(ks, groups, MaxSize(ks, groups), e);
    }
    forall k | k in ks ensures |groups[k]| <= MaxSize(ks, groups) {
      MaxSizeBound(ks, groups, k);
    }
    if ks != [] {
      BestNonEmpty(ks, groups);
    }
  }

  /** Lines 109-117: one pass over the dictionary that keeps the entries
      tying with the first kept one and starts over at a larger one. */
  method BestGroups<K, V>(keys: seq<K>, groups: map<K, seq<V>>) returns (best: seq<(K, seq<V>)>)
    requires forall k :: k in keys ==> k in groups
    ensures best == Best(keys, groups)
  {
    best := [];
    for i := 0 to |keys|
      invariant best == Best(keys[..i], groups)
      invariant i > 0 ==> best != [] && |best[0].1| == MaxSize(keys[..i], groups)
    {
      var k := keys[i];
      var prefix := keys[..i];
      assert keys[..i + 1] == prefix + [k];
      assert (prefix + [k])[..i] == prefix;
      if i > 0 {
        assert best[0] in Best(prefix, groups);
        WithSizeMembers(prefix, groups, MaxSize(prefix, groups), best[0]);
      }
      if |best| == 0 || |groups[k]| == |best[0].1| {
        if i > 0 {
          assert |groups[k]| == MaxSize(prefix, groups);
        }
        best := best + [(k, groups[k])];
      } else if |groups[k]| > |best[0].1| {
        WithSizeAbove(prefix, groups, |groups[k]|);
        best := [(k, groups[k])];
      } else {
        WithSizeSmaller(prefix, k, groups);
      }
    }
    assert keys[..|keys|] == keys;
  }

  /** A group smaller than the present maximum changes nothing. */
  lemma WithSizeSmaller<K, V>(prefix: seq<K>, k: K, groups: map<K, seq<V>>)
    requires forall j :: j in prefix + [k] ==> j in groups
    requires |groups[k]| < MaxSize(prefix, groups)
    ensures Best(prefix + [k], groups) == Best(prefix, groups)
  {
    assert (prefix + [k])[..|prefix|] == prefix;
  }
}
