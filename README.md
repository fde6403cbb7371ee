# Evil Hangman, modelled in Dafny

Evil Hangman is a console game. The computer never commits to a secret
word. It starts from every dictionary word of the chosen length. After each
guess it splits the remaining candidates by where the guessed letter occurs
in them. It then keeps one of the largest groups, so the player is told "no"
whenever that is the more populous answer.

The program is one C# file. Its logic lives in `Main`, mixed with file and
console I/O. The model pulls out four pieces.

- **Lexicon filtering** (module `Lexicon`).
  - The word list is grouped by length, and words shorter than two
    characters are ignored.
  - Every length with fewer than 100 words is removed.
  - The walk records the shortest and longest retained length, the number of
    retained words and the set of letters they use.
  - `PickRandomLength` maps a draw below the word count to a length. It
    subtracts each group's size in turn.
- **The candidate partitioner** (module `Partitioner`).
  - Each candidate is filed under the ascending list of positions at which
    the guessed letter occurs.
  - Position lists are compared with `ListComparer.Equals`.
  - The groups of maximal size are collected.
- **The guess transition** (module `Game`).
  - A repeated letter, or a letter no retained word uses, is rejected.
  - Otherwise the guess is recorded and the chosen group becomes the
    candidate list.
  - An empty key is a wrong guess, and the sixth wrong guess loses.
  - A non-empty key writes the letter into the revealed pattern, and an
    answer without `_` wins.
- **Grouping** (module `Grouping`). The program builds a dictionary of lists
  twice, once keyed by word length and once keyed by position list. Both
  are the same insertion-ordered group-by, defined once with a key function.

A .NET `Dictionary` enumerates its entries in the order they were first
added, as long as nothing was removed before a later add. The model
therefore represents each dictionary as a pair:

- the sequence of its keys in insertion order;
- a `map` from key to list.

The filtering loop of lines 24-37 enumerates a copy of the length dictionary
and removes entries from the original. No entry is added after that, so the
retained key order is the original order with the removed lengths taken out
(`Lexicon.Without`).

The code is imperative, and so is the model:

- the grouping, filtering, letter-collecting, position, comparison,
  best-group, weighted-pick and answer-writing loops are `method`s with loop
  invariants;
- each method is proved equal to a specification function (`LengthGroups`,
  `Retained`, `Pattern`, `GroupMap`, `Best`, `WeightedLength`, `Reveal`);
- the game's mutable locals (`possibleWords`, `guesses`, `wrongGuesses`,
  `answer`) are the fields of class `Game.Session`;
- `Session.Guess` updates them in place and is proved to agree with the
  transition function `Game.Step`, and to keep the state invariant
  `Game.WellFormed`.

Each random draw is a parameter:

- `n`, with `0 <= n < total`, for `rng.Next(0, totalWords)`;
- `tie`, taken modulo the number of largest groups;
- `pick`, taken modulo the number of remaining candidates.

Every in-range index is reachable this way.

## Model

| member | source | states |
|---|---|---|
| `Grouping.GroupMapAppend` | Program.cs:14-18 | adding a word appends it to the list of an existing key, or inserts the key with a one-word list |
| `Grouping.KeysDistinct` | Program.cs:14-17 | the dictionary's key order never lists a key twice |
| `Grouping.GroupMapPartition` | Program.cs:12-20 | every grouped element lies in the list of its own key, and every element of a list has that list's key |
| `Grouping.GroupMapSizes` | Program.cs:101-105 | the list sizes of a grouping dictionary add up to the number of elements grouped |
| `Grouping.GroupSubMultiset` | Program.cs:101-105 | a group holds nothing the input does not, counting repetitions |
| `Lexicon.GroupByLength` | Program.cs:12-20 | the loop builds exactly the length dictionary of the words longer than one character, with keys in first-seen order |
| `Lexicon.LengthGroupsByLength` | Program.cs:12-20 | in the length dictionary every length is above 1, listed once, and shared by all words filed under it |
| `Lexicon.OfLengthMembers` | Program.cs:13-18 | the words filed under a length `n > 1` are exactly the input words of length `n` |
| `Lexicon.RetainedMembers` | Program.cs:25-26 | a length survives filtering exactly when it was a key whose list holds at least 100 words |
| `Lexicon.RetainedLengths` | Program.cs:13-25 | a length is retained iff it is above 1 and at least 100 input words have it: 99 words drop it, 100 keep it |
| `Lexicon.WithoutOnce` | Program.cs:26 | removing a key that occurs once leaves the other keys in their order |
| `Lexicon.AddLetters` | Program.cs:31-35 | the nested loop adds exactly the characters of the given words to the letter set |
| `Lexicon.RangeStep` | Program.cs:28-29 | one more retained length keeps `longest` the maximum and `shortest` the minimum, capped at the initial 99 |
| `Lexicon.Filter` | Program.cs:22-37 | the walk keeps exactly the lengths with at least 100 words, in dictionary order, and accumulates their word count, their letters and their range |
| `Lexicon.FilterResult` | Program.cs:24-27 | the dictionary left after the removals is the restriction of the original to the large groups, with the same word count and letters |
| `Lexicon.LettersExact` | Program.cs:23-35 | a character is in `letters` exactly when some retained word contains it |
| `Lexicon.TotalZeroIffEmpty` | Program.cs:38-42 | the word count is zero exactly when no length is retained |
| `Lexicon.Load` | Program.cs:12-42 | loading fails exactly when no length is retained; otherwise it returns the filtered index with its invariant |
| `Lexicon.WeightedLengthIsKey` | Program.cs:56-62 | for a draw below the word count, the walk returns a retained length, so the exception is unreachable |
| `Lexicon.WeightedLengthInterval` | Program.cs:55-61 | the `k`-th length is returned exactly for the draws in a window as wide as its group, starting at the sizes of the earlier groups |
| `Lexicon.PickRandomLength` | Program.cs:54-63 | the subtracting loop returns a retained length, the one that `WeightedLength` assigns to the draw |
| `Lexicon.ChooseLength` | Program.cs:46-53 | a requested retained length is used; any other request gets the weighted length of the draw; the result is always retained |
| `Partitioner.PatternSpec` | Program.cs:95-100 | the position list is strictly increasing and holds exactly the indices where the word has the guessed letter |
| `Partitioner.PatternUnique` | Program.cs:95-100 | no other increasing list has those members, so the key is determined by the positions alone |
| `Partitioner.PatternPositions` | Program.cs:96-98 | the word has the letter at index `i` exactly when `i` is in its key |
| `Partitioner.Positions` | Program.cs:95-100 | the index loop computes the position list |
| `Partitioner.ListEquals` | Program.cs:146-156 | the comparer returns true exactly when the two lists are equal |
| `Partitioner.Partition` | Program.cs:94-106 | the loop builds the grouping of the candidates by position list, keys in first-seen order |
| `Partitioner.PartitionExact` | Program.cs:91-106 | every candidate lies in the group of its own position list, and every member of a group has that group's key |
| `Partitioner.BestSpec` | Program.cs:109-117 | the selected entries are exactly the groups of maximal size; none is larger; they are non-empty iff the dictionary is |
| `Partitioner.BestGroups` | Program.cs:109-117 | the clear-and-append loop yields the maximal-size entries in dictionary order |
| `Partitioner.WithSizeSmaller` | Program.cs:113 | a group smaller than the current maximum leaves the selection unchanged |
| `Game.Chosen` | Program.cs:118 | the chosen entry has a key of the dictionary, that key's group, and at least one word |
| `Game.ChosenIsPick` | Program.cs:118 | the selection is non-empty, and the chosen entry is the one at index `tie` modulo its size |
| `Game.ChosenLargest` | Program.cs:108-118 | no group of the candidates is larger than the chosen one |
| `Game.ChosenMembers` | Program.cs:118-121 | the chosen words are exactly the old candidates with the chosen position list |
| `Game.InitialWellFormed` | Program.cs:64-68 | the start state satisfies the invariant |
| `Game.RejectedGuessLeavesState` | Program.cs:81-87 | a repeated or unknown letter changes nothing and reports which it was |
| `Game.GuessNarrows` | Program.cs:91-121 | an accepted guess leaves a non-empty sub-multiset of the candidates: one class of a position list, and a class no smaller than any other |
| `Game.GuessOutcome` | Program.cs:120-141 | an empty key adds one wrong guess and loses at 6 with a remaining word; a non-empty key writes the letter at exactly its positions and wins iff no `_` is left |
| `Game.GuessKeepsInvariant` | Program.cs:81-141 | every guess keeps the invariant: candidates agree with the revealed answer and the guesses, guesses are distinct lexicon letters, wrong guesses stay at most 6, lost iff 6, won iff no `_` |
| `Game.AdoptKeepsInvariant` | Program.cs:120-141 | adopting a non-empty class of old candidates that agree on the letter's positions keeps the invariant |
| `Game.WonIsSolved` | Program.cs:136-137 | once won, every remaining candidate is the revealed answer |
| `Game.KeyInRange` | Program.cs:132-133 | every position of the chosen key lies inside the answer, so the buffer writes are in bounds |
| `Game.WriteLetter` | Program.cs:131-135 | the buffer loop yields the answer with the letter at exactly the key positions |
| `Game.Choose` | Program.cs:91-118 | partitioning and selecting in place yields the chosen entry |
| `Game.Session.constructor` | Program.cs:64-68 | the game starts with all words of the length, no guesses, no wrong guesses and an all-`_` answer, and the invariant holds |
| `Game.Session.Guess` | Program.cs:78-141 | the in-place update and its report equal `Step` of the old state, and the invariant is kept |
| `Game.Session.Miss` | Program.cs:122-128 | one more wrong guess; at 6 the game is lost and reports a remaining candidate; nothing else changes |
| `Game.Session.Hit` | Program.cs:129-141 | the letter is written at the key positions; the game is won iff no `_` is left; nothing else changes |

## Left out

- File reading and `Split('\n')` (line 10) are not modelled. The model takes the word list as a sequence, so stray `'\r'` characters are whatever the sequence holds.
- Text encoding is not modelled. A word is a sequence of Dafny `char`s, which are Unicode scalar values, while C# measures and indexes strings in UTF-16 code units (`word.Length` at line 13, `word[i]` at line 97, `foreach (char letter in word)` at line 32). One model character stands for one C# `char` only for text inside the Basic Multilingual Plane. A word with a character outside it is measured, partitioned and lettered differently. For example, C# gives the one-emoji word a length of 2 and puts both surrogate halves into `letters`; the model gives it length 1, so it is dropped at line 13, and it has no surrogate characters at all.
- Console prompts, reads and printing (lines 39-53, 72-80, 123-139) are not modelled. At line 79 the guessed character becomes a parameter.
- `int.TryParse` (line 46) is not modelled. `ChooseLength` receives its result as an `Option<int>`.
- The distributions of `Random` are not modelled; the draws at lines 55, 118 and 125 are parameters. Nothing is proved about uniformity, only that every in-range index is allowed.
- `ListComparer.GetHashCode` (lines 158-164) is not modelled. It only affects the dictionary's speed. Its multiplication makes every key that contains position 0 hash to 0, which collides but stays correct. Lookups are modelled as `map` membership on sequences, and `ListEquals` is proved to be structural equality.
- The endless `while (true)` loop (line 70) and its `break`s are not modelled. `Session.Guess` is one pass of its body, and the `Won`/`Lost` status marks where the loop stops.
- The `InvalidOperationException` at line 62 is not modelled. `PickRandomLength` requires `0 <= n < total` and is proved never to reach it. `WeightedLength` returns 0 in its place.
- The initial `shortestLength = 99` (line 22) is modelled as written: `shortest` is the minimum retained length capped at 99. When every retained length is above 99, `shortest` stays 99. This only affects the prompt and the range check of line 46, and the `ContainsKey` test that follows makes the range check redundant.
