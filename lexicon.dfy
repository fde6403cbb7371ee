/**
  The word index built at start-up (Program.cs, lines 9-63): words are
  grouped by length, lengths with too few words are dropped, and the
  retained index yields the length range, the word count, the letters in
  use and a length drawn in proportion to its number of words.
*/
module Lexicon {
  import opened Grouping
  import opened Wrappers

  /** A length is kept only if it has at least this many words. */
  const MinGroupSize: nat := 100

  /** Starting value of the shortest-length accumulator. */
  const InitialShortest: nat := 99

  datatype LoadError = InsufficientData

  /** The retained index. `order` lists the retained lengths in the order in
      which the dictionary enumerates them; `groups` maps each one to its
      words; `shortest`, `longest`, `total` and `letters` are the values the
      filtering loop accumulates. */
  datatype Lexicon = Lexicon(
    order: seq<nat>,
    groups: map<nat, seq<string>>,
    shortest: nat,
    longest: nat,
    total: nat,
    letters: set<char>)

  function Len(w: string): nat { |w| }

  function IsLong(w: string): bool { |w| > 1 }

  /** The words that take part in grouping: those of length two or more. */
  function Long(words: seq<string>): seq<string>
  {
    Group(words, IsLong, true)
  }

  /** The lengths in the order the grouping loop first meets them. */
  function LengthOrder(words: seq<string>): seq<nat>
  {
    Keys(Long(words), Len)
  }

  /** The dictionary the grouping loop builds: each length to its words. */
  function LengthGroups(words: seq<string>): map<nat, seq<string>>
  {
    GroupMap(Long(words), Len)
  }

  /** Shape of a length dictionary: its key order lists every key once, and
      every key is a length of two or more shared by all words under it. */
  ghost predicate ByLength(order: seq<nat>, groups: map<nat, seq<string>>)
  {
    && Distinct(order)
    && (forall n :: n in groups <==> n in order)
    && (forall n :: n in groups ==> n > 1 && forall w :: w in groups[n] ==> |w| == n)
  }

  // Grouping by length.

  method GroupByLength(words: seq<string>) returns (order: seq<nat>, groups: map<nat, seq<string>>)
    ensures order == LengthOrder(words)
    ensures groups == LengthGroups(words)
  {
    order, groups := [], map[];
    for i := 0 to |words|
      invariant order == Keys(Long(words[..i]), Len)
      invariant groups == GroupMap(Long(words[..i]), Len)
    {
      var word := words[i];
      assert words[..i + 1] == words[..i] + [word];
      GroupAppend(words[..i], word, IsLong, true);
      assert IsLong(word) == (|word| > 1);
      assert Len(word) == |word|;
      var long := Long(words[..i]);
      if |word| > 1 {
        assert Long(words[..i + 1]) == long + [word];
        KeysAppend(long, word, Len);
        GroupMapAppend(long, word, Len);
        if |word| in groups {
          groups := groups[|word| := groups[|word|] + [word]];
        } else {
          groups := groups[|word| := [word]];
          order := order + [|word|];
        }
      } else {
        assert Long(words[..i + 1]) == long;
      }
    }
    assert words[..|words|] == words;
  }

  /** The built dictionary has the shape `ByLength` describes. */
  lemma LengthGroupsByLength(words: seq<string>)
    ensures ByLength(LengthOrder(words), LengthGroups(words))
  {
    var long := Long(words);
    KeysDistinct(long, Len);
    forall n | n in LengthGroups(words)
      ensures n > 1 && forall w :: w in LengthGroups(words)[n] ==> |w| == n
    {
      GroupNonEmpty(long, Len, n);
      var w0 := Group(long, Len, n)[0];
      GroupMembers(long, Len, n, w0);
      GroupMembers(words, IsLong, true, w0);
      forall w | w in LengthGroups(words)[n] ensures |w| == n {
        GroupMembers(long, Len, n, w);
      }
    }
  }

  /** The words grouped under a length `n` of two or more are exactly the
      words of `words` that have length `n`. */
  lemma OfLengthMembers(words: seq<string>, n: nat, w: string)
    requires n > 1
    ensures w in Group(Long(words), Len, n) <==> w in words && |w| == n
  {
    GroupMembers(Long(words), Len, n, w);
    GroupMembers(words, IsLong, true, w);
  }

  // Dropping small groups.

  /** The keys of `order` whose group holds at least `MinGroupSize` words, in order. */
  function Retained(order: seq<nat>, groups: map<nat, seq<string>>): (r: seq<nat>)
    requires forall n :: n in order ==> n in groups
    ensures forall n :: n in r ==> n in order
  {
    if order == [] then []
    else (if |groups[order[0]]| >= MinGroupSize then [order[0]] else []) + Retained(order[1..], groups)
  }

  function RetainedGroups(groups: map<nat, seq<string>>): map<nat, seq<string>>
  {
    map n | n in groups && |groups[n]| >= MinGroupSize :: groups[n]
  }

  /** `ks` with every occurrence of `n` taken out: the key order after the
      dictionary's `Remove(n)`. */
  function Without(ks: seq<nat>, n: nat): seq<nat>
  {
    if ks == [] then []
    else Without(ks[..|ks| - 1], n) + (if ks[|ks| - 1] == n then [] else [ks[|ks| - 1]])
  }

  lemma {:induction false} WithoutAbsent(ks: seq<nat>, n: nat)
    requires n !in ks
    ensures Without(ks, n) == ks
  {
    if ks != [] {
      WithoutAbsent(ks[..|ks| - 1], n);
    }
  }

  /** A key is retained exactly when it is a key whose group is large enough. */
  lemma {:induction false} RetainedMembers(order: seq<nat>, groups: map<nat, seq<string>>, n: nat)
    requires forall k :: k in order ==> k in groups
    ensures n in Retained(order, groups) <==> n in order && |groups[n]| >= MinGroupSize
  {
    if order != [] {
      RetainedMembers(order[1..], groups, n);
    }
  }

  lemma {:induction false} RetainedDistinct(order: seq<nat>, groups: map<nat, seq<string>>)
    requires forall k :: k in order ==> k in groups
    requires Distinct(order)
    ensures Distinct(Retained(order, groups))
  {
    if order != [] {
      assert Distinct(order[1..]);
      RetainedDistinct(order[1..], groups);
      RetainedMembers(order[1..], groups, order[0]);
    }
  }

  // Letters.

  /** Every character of every word of `ws`. */
  function CharsOf(ws: seq<string>): set<char>
  {
    if ws == [] then {} else CharsOf(ws[..|ws| - 1]) + CharSet(ws[|ws| - 1])
  }

  function CharSet(w: string): set<char>
  {
    set i | 0 <= i < |w| :: w[i]
  }

  /** The characters of the words held under the keys `ks`. */
  function GroupLetters(ks: seq<nat>, groups: map<nat, seq<string>>): set<char>
    requires forall n :: n in ks ==> n in groups
  {
    if ks == [] then {} else GroupLetters(ks[..|ks| - 1], groups) + CharsOf(groups[ks[|ks| - 1]])
  }

  lemma {:induction false} CharsOfMembers(ws: seq<string>, c: char)
    ensures c in CharsOf(ws) <==> exists w :: w in ws && c in w
  {
    if ws != [] {
      var init, last := ws[..|ws| - 1], ws[|ws| - 1];
      assert ws == init + [last];
      CharsOfMembers(init, c);
      if c in CharsOf(ws) && c !in CharsOf(init) {
        assert last in ws && c in last;
      }
      if exists w :: w in ws && c in w {
        var w :| w in ws && c in w;
        if w !in init {
          assert w == last;
        }
      }
    }
  }

  lemma {:induction false} GroupLettersMembers(ks: seq<nat>, groups: map<nat, seq<string>>, c: char)
    requires forall n :: n in ks ==> n in groups
    ensures c in GroupLetters(ks, groups) <==> exists n :: n in ks && c in CharsOf(groups[n])
  {
    if ks != [] {
      var init, last := ks[..|ks| - 1], ks[|ks| - 1];
      assert ks == init + [last];
      GroupLettersMembers(init, groups, c);
      if exists n :: n in ks && c in CharsOf(groups[n]) {
        var n :| n in ks && c in CharsOf(groups[n]);
        if n !in init {
          assert n == last;
        }
      }
    }
  }

  lemma {:induction false} GroupLettersSame(ks: seq<nat>, m1: map<nat, seq<string>>, m2: map<nat, seq<string>>)
    requires forall n :: n in ks ==> n in m1 && n in m2 && m1[n] == m2[n]
    ensures GroupLetters(ks, m1) == GroupLetters(ks, m2)
  {
    if ks != [] {
      GroupLettersSame(ks[..|ks| - 1], m1, m2);
    }
  }

  /** Adds every letter of every word of `ws` to `letters` (lines 31-35). */
  method AddLetters(letters: set<char>, ws: seq<string>) returns (r: set<char>)
    ensures r == letters + CharsOf(ws)
  {
    r := letters;
    for j := 0 to |ws|
      invariant r == letters + CharsOf(ws[..j])
    {
      var word := ws[j];
      for k := 0 to |word|
        invariant r == letters + CharsOf(ws[..j]) + CharSet(word[..k])
      {
        assert word[..k + 1] == word[..k] + [word[k]];
        r := r + {word[k]};
      }
      assert word[..|word|] == word;
      assert ws[..j + 1][..j] == ws[..j];
    }
    assert ws[..|ws|] == ws;
  }

  /** The retained index: `Valid` holds of what filtering produces. */
  ghost predicate Valid(lex: Lexicon)
  {
    && ByLength(lex.order, lex.groups)
    && (forall n :: n in lex.groups ==> |lex.groups[n]| >= MinGroupSize)
    && lex.total == SumSizes(lex.order, lex.groups)
    && lex.letters == GroupLetters(lex.order, lex.groups)
    && InRange(lex.order, lex.shortest, lex.longest)
  }

  /** Visiting the `i`-th length moves it, if its group is large enough,
      from the part still to be walked to the part already retained. */
  lemma RetainedStep(order: seq<nat>, groups: map<nat, seq<string>>, i: nat)
    requires forall n :: n in order ==> n in groups
    requires i < |order|
    ensures Retained(order[i..], groups) ==
              (if |groups[order[i]]| >= MinGroupSize then [order[i]] else []) + Retained(order[i + 1..], groups)
  {
    assert order[i..][1..] == order[i + 1..];
  }

  /** Removing a key that occurs once from the key order. */
  lemma {:induction false} WithoutOnce(before: seq<nat>, n: nat, after: seq<nat>)
    requires n !in before && n !in after
    ensures Without(before + [n] + after, n) == before + after
  {
    if after == [] {
      assert before + [n] + after == before + [n];
      assert (before + [n])[..|before|] == before;
      WithoutAbsent(before, n);
    } else {
      var init, last := after[..|after| - 1], after[|after| - 1];
      var whole := before + [n] + after;
      assert whole[..|whole| - 1] == before + [n] + init;
      assert whole[|whole| - 1] == last;
      WithoutOnce(before, n, init);
      assert before + after == (before + init) + [last];
    }
  }

  // The filtering walk of lines 22-37, after visiting the first `i` lengths
  // of `order`, is described by three invariants: `done` lists the visited
  // lengths it kept (Walked); the dictionary copy `keys`/`kept` has lost the
  // visited lengths it dropped (Copied); the accumulators describe `done`
  // (Accumulated).

  ghost predicate Walked(order: seq<nat>, groups: map<nat, seq<string>>, i: nat, done: seq<nat>)
  {
    && (forall n :: n in order ==> n in groups)
    && i <= |order|
    && (forall m :: m in done ==> m in order[..i])
    && Retained(order, groups) == done + Retained(order[i..], groups)
  }

  ghost predicate Copied(order: seq<nat>, groups: map<nat, seq<string>>, i: nat, done: seq<nat>,
                         keys: seq<nat>, kept: map<nat, seq<string>>)
  {
    && i <= |order|
    && keys == done + order[i..]
    && (forall m :: m in kept <==> m in keys)
    && (forall m :: m in kept ==> m in groups && kept[m] == groups[m])
  }

  ghost predicate Accumulated(done: seq<nat>, groups: map<nat, seq<string>>,
                              total: nat, letters: set<char>, shortest: nat, longest: nat)
  {
    && (forall n :: n in done ==> n in groups)
    && total == SumSizes(done, groups)
    && letters == GroupLetters(done, groups)
    && InRange(done, shortest, longest)
  }

  lemma FilterStart(order: seq<nat>, groups: map<nat, seq<string>>)
    requires ByLength(order, groups)
    ensures Walked(order, groups, 0, [])
    ensures Copied(order, groups, 0, [], order, groups)
    ensures Accumulated([], groups, 0, {}, InitialShortest, 0)
  {
    assert order[0..] == order;
  }

  /** Visiting a length whose group is too small adds nothing to `done`. */
  lemma WalkDrop(order: seq<nat>, groups: map<nat, seq<string>>, i: nat, done: seq<nat>)
    requires Walked(order, groups, i, done)
    requires i < |order| && |groups[order[i]]| < MinGroupSize
    ensures Walked(order, groups, i + 1, done)
  {
    RetainedStep(order, groups, i);
    PrefixGrows(order, i, done);
  }

  /** Visiting a length whose group is large enough appends it to `done`. */
  lemma WalkKeep(order: seq<nat>, groups: map<nat, seq<string>>, i: nat, done: seq<nat>)
    requires Walked(order, groups, i, done)
    requires i < |order| && |groups[order[i]]| >= MinGroupSize
    ensures Walked(order, groups, i + 1, done + [order[i]])
  {
    RetainedStep(order, groups, i);
    PrefixGrows(order, i, done);
    assert order[..i + 1] == order[..i] + [order[i]];
  }

  /** What lies in a prefix lies in every longer prefix. */
  lemma PrefixGrows(order: seq<nat>, i: nat, done: seq<nat>)
    requires i < |order|
    requires forall m :: m in done ==> m in order[..i]
    ensures forall m :: m in done ==> m in order[..i + 1]
  {
    assert order[..i + 1] == order[..i] + [order[i]];
  }

  /** Removing a dropped length from the copy: since lengths are distinct, it
      occurs in the key order exactly once, between the kept ones and those
      still to be visited. */
  lemma CopyDrop(order: seq<nat>, groups: map<nat, seq<string>>, i: nat, done: seq<nat>,
                 keys: seq<nat>, kept: map<nat, seq<string>>)
    requires Distinct(order) && i < |order|
    requires forall m :: m in done ==> m in order[..i]
    requires Copied(order, groups, i, done, keys, kept)
    ensures Copied(order, groups, i + 1, done, Without(keys, order[i]), kept - {order[i]})
  {
    var n, rest := order[i], order[i + 1..];
    DistinctAt(order, i);
    assert order[i..] == [n] + rest;
    assert keys == done + [n] + rest;
    WithoutOnce(done, n, rest);
  }

  /** A kept length stays in the copy. */
  lemma CopyKeep(order: seq<nat>, groups: map<nat, seq<string>>, i: nat, done: seq<nat>,
                 keys: seq<nat>, kept: map<nat, seq<string>>)
    requires i < |order|
    requires Copied(order, groups, i, done, keys, kept)
    ensures Copied(order, groups, i + 1, done + [order[i]], keys, kept)
  {
    assert order[i..] == [order[i]] + order[i + 1..];
  }

  /** A kept length adds its group to the accumulators. */
  lemma AccumulateKeep(done: seq<nat>, groups: map<nat, seq<string>>, n: nat,
                       total: nat, letters: set<char>, shortest: nat, longest: nat)
    requires Accumulated(done, groups, total, letters, shortest, longest)
    requires n in groups
    ensures Accumulated(done + [n], groups, total + |groups[n]|, letters + CharsOf(groups[n]),
                        if shortest < n then shortest else n, if longest < n then n else longest)
  {
    assert (done + [n])[..|done|] == done;
    RangeStep(done, n, shortest, longest);
  }

  /** Lines 22-37: walks a copy of the dictionary, removes every length with
      fewer than `MinGroupSize` words and, for each kept length, updates the
      longest and shortest length, the word count and the letter set. */
  method Filter(order: seq<nat>, groups: map<nat, seq<string>>) returns (lex: Lexicon)
    requires ByLength(order, groups)
    ensures lex.order == Retained(order, groups)
    ensures lex.groups == RetainedGroups(groups)
    ensures Valid(lex)
  {
    var keys, kept := order, groups;
    var longest: nat, shortest: nat, total: nat := 0, InitialShortest, 0;
    var letters: set<char> := {};
    ghost var done: seq<nat> := [];
    FilterStart(order, groups);
    for i := 0 to |order|
      invariant Walked(order, groups, i, done)
      invariant Copied(order, groups, i, done, keys, kept)
      invariant Accumulated(done, groups, total, letters, shortest, longest)
    {
      if |groups[order[i]]| < MinGroupSize {
        WalkDrop(order, groups, i, done);
        CopyDrop(order, groups, i, done, keys, kept);
        keys := Without(keys, order[i]);
        kept := kept - {order[i]};
      } else {
        WalkKeep(order, groups, i, done);
        CopyKeep(order, groups, i, done, keys, kept);
        AccumulateKeep(done, groups, order[i], total, letters, shortest, longest);
        var more := AddLetters(letters, groups[order[i]]);
        longest, shortest, total, letters, done :=
          (if longest < order[i] then order[i] else longest),
          (if shortest < order[i] then shortest else order[i]),
          total + |groups[order[i]]|, more, done + [order[i]];
      }
    }
    FilterEnd(order, groups, done, keys, kept, total, letters, shortest, longest);
    lex := Lexicon(keys, kept, shortest, longest, total, letters);
  }

  /** When the walk is over, what it leaves behind is the retained dictionary. */
  lemma FilterEnd(order: seq<nat>, groups: map<nat, seq<string>>,
                  done: seq<nat>, keys: seq<nat>, kept: map<nat, seq<string>>,
                  total: nat, letters: set<char>, shortest: nat, longest: nat)
    requires ByLength(order, groups)
    requires Walked(order, groups, |order|, done)
    requires Copied(order, groups, |order|, done, keys, kept)
    requires Accumulated(done, groups, total, letters, shortest, longest)
    ensures keys == Retained(order, groups)
    ensures kept == RetainedGroups(groups)
    ensures Valid(Lexicon(keys, kept, shortest, longest, total, letters))
  {
    assert order[|order|..] == [];
    assert done == Retained(order, groups);
    FilterResult(order, groups, kept);
  }

  /** Keeping one more length keeps the running minimum and maximum right. */
  lemma RangeStep(done: seq<nat>, n: nat, shortest: nat, longest: nat)
    requires InRange(done, shortest, longest)
    ensures InRange(done + [n], if shortest < n then shortest else n, if longest < n then n else longest)
  {
  }

  /** `shortest` and `longest` are the minimum (capped at `InitialShortest`)
      and the maximum (0 when there is none) of `ks`. */
  ghost predicate InRange(ks: seq<nat>, shortest: nat, longest: nat)
  {
    && (forall m :: m in ks ==> shortest <= m <= longest)
    && (if ks == [] then longest == 0 else longest in ks)
    && shortest <= InitialShortest
    && (shortest == InitialShortest || shortest in ks)
  }

  /** What the filtering walk leaves behind is the retained dictionary. */
  lemma FilterResult(order: seq<nat>, groups: map<nat, seq<string>>, kept: map<nat, seq<string>>)
    requires ByLength(order, groups)
    requires forall n :: n in kept <==> n in Retained(order, groups)
    requires forall n :: n in kept ==> n in groups && kept[n] == groups[n]
    ensures kept == RetainedGroups(groups)
    ensures ByLength(Retained(order, groups), kept)
    ensures SumSizes(Retained(order, groups), kept) == SumSizes(Retained(order, groups), groups)
    ensures GroupLetters(Retained(order, groups), kept) == GroupLetters(Retained(order, groups), groups)
  {
    var retained := Retained(order, groups);
    forall n ensures n in kept <==> n in groups && |groups[n]| >= MinGroupSize {
      RetainedMembers(order, groups, n);
    }
    assert kept == RetainedGroups(groups);
    SumSizesSame(retained, kept, groups);
    GroupLettersSame(retained, kept, groups);
    RetainedDistinct(order, groups);
  }

  /** Every retained group is non-empty, so the word count is zero exactly
      when no length is retained: the load error of lines 38-42. */
  lemma TotalZeroIffEmpty(lex: Lexicon)
    requires Valid(lex)
    ensures lex.total == 0 <==> lex.order == []
  {
    SumSizesZero(lex.order, lex.groups);
  }

  /** Lines 9-42: groups and filters the word list, failing when no word is left. */
  method Load(words: seq<string>) returns (r: Result<Lexicon, LoadError>)
    ensures r.Failure? <==> Retained(LengthOrder(words), LengthGroups(words)) == []
    ensures r.Success? ==> && Valid(r.value)
                           && r.value.order == Retained(LengthOrder(words), LengthGroups(words))
                           && r.value.groups == RetainedGroups(LengthGroups(words))
  {
    var order, groups := GroupByLength(words);
    LengthGroupsByLength(words);
    var lex := Filter(order, groups);
    TotalZeroIffEmpty(lex);
    if lex.total == 0 {
      return Failure(InsufficientData);
    }
    return Success(lex);
  }

  /** The retained lengths are exactly the lengths of two or more that at
      least `MinGroupSize` words of the list have: 99 such words drop the
      length, 100 keep it. */
  lemma RetainedLengths(words: seq<string>, n: nat)
    ensures n in RetainedGroups(LengthGroups(words)) <==>
              n > 1 && |Group(Long(words), Len, n)| >= MinGroupSize
  {
    LengthGroupsByLength(words);
    if n !in LengthOrder(words) {
      GroupEmpty(Long(words), Len, n);
    }
  }

  /** The letter set holds exactly the characters of the retained words. */
  lemma LettersExact(lex: Lexicon, c: char)
    requires Valid(lex)
    ensures c in lex.letters <==> exists n, w :: n in lex.groups && w in lex.groups[n] && c in w
  {
    GroupLettersMembers(lex.order, lex.groups, c);
    if c in lex.letters {
      var n :| n in lex.order && c in CharsOf(lex.groups[n]);
      CharsOfMembers(lex.groups[n], c);
    }
    if exists n, w :: n in lex.groups && w in lex.groups[n] && c in w {
      var n, w :| n in lex.groups && w in lex.groups[n] && c in w;
      CharsOfMembers(lex.groups[n], c);
    }
  }

  // Weighted choice of a length.

  /** The length the walk of lines 54-63 returns for the draw `n`: subtract
      each group's size in enumeration order until the draw goes negative.
      0 stands for the exception thrown when the walk runs off the end. */
  function WeightedLength(order: seq<nat>, groups: map<nat, seq<string>>, n: int): nat
    requires forall k :: k in order ==> k in groups
  {
    if order == [] then 0
    else if n < |groups[order[0]]| then order[0]
    else WeightedLength(order[1..], groups, n - |groups[order[0]]|)
  }

  /** A draw below the word count falls inside some group: the walk never
      runs off the end. */
  lemma {:induction false} WeightedLengthIsKey(order: seq<nat>, groups: map<nat, seq<string>>, n: int)
    requires forall k :: k in order ==> k in groups
    requires 0 <= n < SumSizes(order, groups)
    ensures WeightedLength(order, groups, n) in order
  {
    SumSizesCons(order, groups);
    if n >= |groups[order[0]]| {
      WeightedLengthIsKey(order[1..], groups, n - |groups[order[0]]|);
    }
  }

  /** The draws that give the `k`-th key are exactly those from the sum of the
      earlier groups' sizes up to, but not including, that sum plus the
      size of its own group: each length is drawn as often as it has words. */
  lemma {:induction false} WeightedLengthInterval(order: seq<nat>, groups: map<nat, seq<string>>, n: int, k: nat)
    requires forall j :: j in order ==> j in groups
    requires Distinct(order)
    requires k < |order|
    requires 0 <= n < SumSizes(order, groups)
    ensures WeightedLength(order, groups, n) == order[k] <==>
              SumSizes(order[..k], groups) <= n < SumSizes(order[..k + 1], groups)
  {
    if k == 0 {
      WeightedLengthFirst(order, groups, n);
    } else {
      var rest, s := order[1..], |groups[order[0]]|;
      SumSizesCons(order, groups);
      SumSizesCons(order[..k + 1], groups);
      SumSizesCons(order[..k], groups);
      assert order[..k + 1][1..] == rest[..k];
      assert order[..k][1..] == rest[..k - 1];
      assert rest[k - 1] == order[k];
      if n >= s {
        assert Distinct(rest);
        WeightedLengthInterval(rest, groups, n - s, k - 1);
      } else {
        assert order[k] != order[0];
      }
    }
  }

  /** The draws that give the first key are those below its group's size. */
  lemma WeightedLengthFirst(order: seq<nat>, groups: map<nat, seq<string>>, n: int)
    requires forall j :: j in order ==> j in groups
    requires Distinct(order)
    requires order != []
    requires 0 <= n < SumSizes(order, groups)
    ensures WeightedLength(order, groups, n) == order[0] <==> n < |groups[order[0]]|
  {
    var s := |groups[order[0]]|;
    if n >= s {
      SumSizesCons(order, groups);
      WeightedLengthIsKey(order[1..], groups, n - s);
      DistinctAt(order, 0);
    }
  }

  /** One step of the walk: the `k`-th group either contains the remaining
      draw or is subtracted from it. */
  lemma WeightedStep(order: seq<nat>, groups: map<nat, seq<string>>, k: nat, left: int)
    requires forall j :: j in order ==> j in groups
    requires k < |order|
    ensures WeightedLength(order[k..], groups, left) ==
              if left < |groups[order[k]]| then order[k]
              else WeightedLength(order[k + 1..], groups, left - |groups[order[k]]|)
  {
    assert order[k..][1..] == order[k + 1..];
  }

  lemma SumSizesSuffix(order: seq<nat>, groups: map<nat, seq<string>>, k: nat)
    requires forall j :: j in order ==> j in groups
    requires k < |order|
    ensures SumSizes(order[k..], groups) == |groups[order[k]]| + SumSizes(order[k + 1..], groups)
  {
    SumSizesCons(order[k..], groups);
    assert order[k..][1..] == order[k + 1..];
  }

  /** Lines 54-63, over the dictionary's key order `order`, its lists
      `groups` and the word count `total`; the draw `n` stands for
      `rng.Next(0, totalWords)`. */
  method PickRandomLength(order: seq<nat>, groups: map<nat, seq<string>>, total: nat, n: int)
    returns (length: nat)
    requires forall j :: j in order ==> j in groups
    requires total == SumSizes(order, groups)
    requires 0 <= n < total
    ensures length in order
    ensures length == WeightedLength(order, groups, n)
  {
    length := 0;
    var left := n;
    var k := 0;
    assert order[0..] == order;
    while k < |order|
      invariant 0 <= k <= |order|
      invariant 0 <= left < SumSizes(order[k..], groups)
      invariant WeightedLength(order, groups, n) == WeightedLength(order[k..], groups, left)
    {
      WeightedStep(order, groups, k, left);
      SumSizesSuffix(order, groups, k);
      left := left - |groups[order[k]]|;
      if left < 0 {
        return order[k];
      }
      k := k + 1;
    }
    assert false;
  }

  /** Lines 44-53: a parsed request that names a retained length is used;
      anything else (no number, out of range, too few words) gets a
      weighted random length. */
  method ChooseLength(lex: Lexicon, requested: Option<int>, n: int) returns (length: nat)
    requires Valid(lex)
    requires 0 <= n < lex.total
    ensures length in lex.groups
    ensures requested.Some? && requested.value in lex.groups ==> length == requested.value
    ensures !(requested.Some? && requested.value in lex.groups) ==> length == WeightedLength(lex.order, lex.groups, n)
  {
    if requested.Some? && lex.shortest <= requested.value <= lex.longest {
      if requested.value !in lex.groups {
        length := PickRandomLength(lex.order, lex.groups, lex.total, n);
      } else {
        length := requested.value;
      }
    } else {
      length := PickRandomLength(lex.order, lex.groups, lex.total, n);
    }
  }
}
