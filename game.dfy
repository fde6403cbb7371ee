/**
  The guessing game of Program.cs, lines 64-141. The state is the list of
  words still possible, the letters guessed so far, the count of wrong
  guesses and the revealed pattern. A guess is rejected when it repeats an
  earlier one or is not a letter of the lexicon. Otherwise the candidates
  are split by where the letter occurs and one of the largest groups is
  adopted.

  `Step` is the transition as a function of the state; `Session` is the
  game object whose `Guess` method performs it in place.
*/
module Game {
  import opened Grouping
  import opened Partitioner
  import Lexicon

  /** The game is lost at this many wrong guesses (line 124). */
  const MaxWrong: nat := 6

  /** An unrevealed position of the answer (line 68). */
  const Blank: char := '_'

  datatype Status = Playing | Won | Lost

  /** What a guess reports to the player. */
  datatype Outcome =
    | AlreadyGuessed          // line 82
    | InvalidLetter           // line 85
    | Incorrect               // line 123
    | GameOver(word: string)  // line 125: a word drawn from the remaining candidates
    | Correct(hits: nat)      // line 130: how many positions the letter took
    | Solved(word: string)    // line 137

  datatype State = State(
    words: seq<string>,
    guesses: seq<char>,
    wrong: nat,
    answer: string,
    status: Status)

  /** Lines 64-68: every word of the chosen length, nothing guessed, nothing revealed. */
  function Initial(words: seq<string>, length: nat): State
  {
    State(words, [], 0, seq(length, _ => Blank), Playing)
  }

  /** The entry picked at line 118 from the largest groups of line 109, with
      `tie` standing for the random index. */
  function Chosen(words: seq<string>, c: char, tie: nat): (e: (seq<nat>, seq<string>))
    requires words != []
    ensures e.0 in Keys(words, PatternOf(c))
    ensures e.1 == Group(words, PatternOf(c), e.0)
    ensures e.1 != []
  {
    var ks, groups := Keys(words, PatternOf(c)), GroupMap(words, PatternOf(c));
    KeysMembers(words, PatternOf(c), PatternOf(c)(words[0]));
    BestSpec(ks, groups);
    var best := Best(ks, groups);
    var e := best[tie % |best|];
    GroupNonEmpty(words, PatternOf(c), e.0);
    e
  }

  /** No class of the candidates is larger than the chosen one. */
  lemma ChosenLargest(words: seq<string>, c: char, tie: nat)
    requires words != []
    ensures forall k :: k in Keys(words, PatternOf(c)) ==> |Group(words, PatternOf(c), k)| <= |Chosen(words, c, tie).1|
  {
    var ks, groups := Keys(words, PatternOf(c)), GroupMap(words, PatternOf(c));
    ChosenIsPick(words, c, tie);
    BestSpec(ks, groups);
    var best := Best(ks, groups);
    assert best[tie % |best|] in best;
  }

  /** `answer` with the letter `c` written at the positions `key` (lines 131-135). */
  function Reveal(answer: string, key: seq<nat>, c: char): string
  {
    seq(|answer|, i requires 0 <= i < |answer| => if i in key then c else answer[i])
  }

  /** One pass of the game loop after the letter `c` is read (lines 81-141);
      `tie` and `pick` stand for the random indices of lines 118 and 125. */
  function Step(letters: set<char>, s: State, c: char, tie: nat, pick: nat): (State, Outcome)
    requires s.words != []
  {
    if c in s.guesses then (s, AlreadyGuessed)
    else if c !in letters then (s, InvalidLetter)
    else Adopt(s, c, Chosen(s.words, c, tie), pick)
  }

  /** Lines 88 and 120-141: the guess is recorded and the entry `e` is
      adopted as the new candidate list. */
  function Adopt(s: State, c: char, e: (seq<nat>, seq<string>), pick: nat): (State, Outcome)
    requires e.1 != []
  {
    var key, words, guesses := e.0, e.1, s.guesses + [c];
    if key == [] then
      var wrong := s.wrong + 1;
      if wrong >= MaxWrong then (State(words, guesses, wrong, s.answer, Lost), GameOver(words[pick % |words|]))
      else (State(words, guesses, wrong, s.answer, Playing), Incorrect)
    else
      var answer := Reveal(s.answer, key, c);
      if Blank !in answer then (State(words, guesses, s.wrong, answer, Won), Solved(answer))
      else (State(words, guesses, s.wrong, answer, Playing), Correct(|key|))
  }

  /** `Chosen` is the entry at index `tie` modulo the number of largest
      groups, as selected by `BestGroups`. */
  lemma ChosenIsPick(words: seq<string>, c: char, tie: nat)
    requires words != []
    ensures Best(Keys(words, PatternOf(c)), GroupMap(words, PatternOf(c))) != []
    ensures var best := Best(Keys(words, PatternOf(c)), GroupMap(words, PatternOf(c)));
            Chosen(words, c, tie) == best[tie % |best|]
  {
    KeysMembers(words, PatternOf(c), PatternOf(c)(words[0]));
    BestSpec(Keys(words, PatternOf(c)), GroupMap(words, PatternOf(c)));
  }

  /** The state invariant of the game: the candidates all have the length of
      the answer and agree with it on every guessed letter (the comment at
      line 91); the guesses are distinct letters of the lexicon; the wrong
      count stays within `MaxWrong`; the game is lost exactly at `MaxWrong`
      wrong guesses and won exactly when nothing is left unrevealed. */
  ghost predicate WellFormed(letters: set<char>, s: State)
  {
    && s.words != []
    && (forall w :: w in s.words ==> |w| == |s.answer|)
    && (forall w, i :: w in s.words && 0 <= i < |w| && s.answer[i] != Blank ==> w[i] == s.answer[i])
    && (forall w, i :: w in s.words && 0 <= i < |w| && w[i] != Blank && w[i] in s.guesses ==> s.answer[i] == w[i])
    && (forall i :: 0 <= i < |s.answer| && s.answer[i] != Blank ==> s.answer[i] in s.guesses)
    && Distinct(s.guesses)
    && (forall g :: g in s.guesses ==> g in letters)
    && s.wrong <= MaxWrong
    && (s.status == Lost <==> s.wrong == MaxWrong)
    && (s.status == Won <==> Blank !in s.answer)
  }

  lemma InitialWellFormed(letters: set<char>, words: seq<string>, length: nat)
    requires words != [] && length > 0
    requires forall w :: w in words ==> |w| == length
    ensures WellFormed(letters, Initial(words, length))
    ensures Initial(words, length).status == Playing
  {
    assert Initial(words, length).answer[0] == Blank;
  }

  /** Lines 81-87: a repeated guess or a character outside the lexicon's
      letters changes nothing. */
  lemma RejectedGuessLeavesState(letters: set<char>, s: State, c: char, tie: nat, pick: nat)
    requires s.words != []
    requires c in s.guesses || c !in letters
    ensures Step(letters, s, c, tie, pick).0 == s
    ensures Step(letters, s, c, tie, pick).1 == if c in s.guesses then AlreadyGuessed else InvalidLetter
  {
  }

  /** The words of the chosen group are old candidates, all with the same
      position list `key`. */
  lemma ChosenMembers(words: seq<string>, c: char, tie: nat)
    requires words != []
    ensures forall w :: w in Chosen(words, c, tie).1 <==> w in words && Pattern(w, c) == Chosen(words, c, tie).0
  {
    var e := Chosen(words, c, tie);
    forall w ensures w in e.1 <==> w in words && Pattern(w, c) == e.0 {
      GroupMembers(words, PatternOf(c), e.0, w);
    }
  }

  /** Lines 91-121: an accepted guess keeps exactly the old candidates that
      share one position list of the letter, a class no smaller than any
      other class of the old candidates, and never an empty one. */
  lemma GuessNarrows(letters: set<char>, s: State, c: char, tie: nat, pick: nat)
    requires s.words != []
    requires c !in s.guesses && c in letters
    ensures Step(letters, s, c, tie, pick).0.words != []
    ensures multiset(Step(letters, s, c, tie, pick).0.words) <= multiset(s.words)
    ensures forall w :: w in Step(letters, s, c, tie, pick).0.words <==>
              w in s.words && Pattern(w, c) == Pattern(Step(letters, s, c, tie, pick).0.words[0], c)
    ensures forall w :: w in s.words ==>
              |Group(s.words, PatternOf(c), Pattern(w, c))| <= |Step(letters, s, c, tie, pick).0.words|
  {
    var e := Chosen(s.words, c, tie);
    assert Step(letters, s, c, tie, pick).0.words == e.1;
    ChosenMembers(s.words, c, tie);
    ChosenLargest(s.words, c, tie);
    GroupSubMultiset(s.words, PatternOf(c), e.0);
    assert e.1[0] in e.1;
    forall w | w in s.words ensures |Group(s.words, PatternOf(c), Pattern(w, c))| <= |e.1| {
      KeysMembers(s.words, PatternOf(c), PatternOf(c)(w));
    }
  }

  /** Lines 122-140: with `key` the position list of the new candidates, an
      empty key costs one wrong guess and ends the game at `MaxWrong`,
      reporting one of the candidates; a non-empty key writes the letter at
      exactly the key positions and wins when no blank is left. */
  lemma GuessOutcome(letters: set<char>, s: State, c: char, tie: nat, pick: nat)
    requires s.words != []
    requires c !in s.guesses && c in letters
    ensures var (t, o) := Step(letters, s, c, tie, pick);
            var key := Pattern(t.words[0], c);
            && t.words != []
            && t.guesses == s.guesses + [c]
            && (key == [] ==>
                  && t.wrong == s.wrong + 1
                  && t.answer == s.answer
                  && (t.status == Lost <==> t.wrong >= MaxWrong)
                  && t.status != Won
                  && (if t.status == Lost then o.GameOver? && o.word in t.words else o == Incorrect))
            && (key != [] ==>
                  && t.wrong == s.wrong
                  && |t.answer| == |s.answer|
                  && (forall i :: 0 <= i < |s.answer| ==> t.answer[i] == if i in key then c else s.answer[i])
                  && t.status != Lost
                  && (t.status == Won <==> Blank !in t.answer)
                  && (if t.status == Won then o == Solved(t.answer) else o == Correct(|key|)))
  {
    var e := Chosen(s.words, c, tie);
    assert Step(letters, s, c, tie, pick) == Adopt(s, c, e, pick);
    ChosenMembers(s.words, c, tie);
    assert e.1[0] in e.1;
  }

  /** Every accepted guess keeps the invariant, so the wrong count never
      passes `MaxWrong` and the candidates always fit the revealed answer. */
  lemma GuessKeepsInvariant(letters: set<char>, s: State, c: char, tie: nat, pick: nat)
    requires WellFormed(letters, s) && s.status == Playing
    ensures WellFormed(letters, Step(letters, s, c, tie, pick).0)
  {
    if c !in s.guesses && c in letters {
      var e := Chosen(s.words, c, tie);
      ChosenMembers(s.words, c, tie);
      forall w, i | w in e.1 && 0 <= i < |w| ensures w[i] == c <==> i in e.0 {
        PatternPositions(w, c, i);
      }
      AdoptKeepsInvariant(letters, s, c, e, pick);
    }
  }

  /** Adopting a non-empty class of old candidates on whose positions of `c`
      all agree keeps the invariant. */
  lemma AdoptKeepsInvariant(letters: set<char>, s: State, c: char, e: (seq<nat>, seq<string>), pick: nat)
    requires WellFormed(letters, s) && s.status == Playing
    requires c !in s.guesses && c in letters
    requires e.1 != []
    requires forall w :: w in e.1 ==> w in s.words
    requires forall w, i :: w in e.1 && 0 <= i < |w| ==> (w[i] == c <==> i in e.0)
    ensures WellFormed(letters, Adopt(s, c, e, pick).0)
  {
    var t := Adopt(s, c, e, pick).0;
    assert t.words == e.1 && t.guesses == s.guesses + [c];
    if e.0 == [] {
      NarrowedAgree(s, c, e.1, t.guesses);
    } else {
      RevealedAgree(s, c, e.0, e.1, t.guesses);
    }
  }

  /** After a wrong guess: fewer candidates, same answer, one more guess. */
  lemma NarrowedAgree(s: State, c: char, words: seq<string>, guesses: seq<char>)
    requires forall w :: w in s.words ==> |w| == |s.answer|
    requires forall w, i :: w in s.words && 0 <= i < |w| && s.answer[i] != Blank ==> w[i] == s.answer[i]
    requires forall w, i :: w in s.words && 0 <= i < |w| && w[i] != Blank && w[i] in s.guesses ==> s.answer[i] == w[i]
    requires forall w :: w in words ==> w in s.words
    requires forall w, i :: w in words && 0 <= i < |w| ==> w[i] != c
    requires guesses == s.guesses + [c]
    ensures forall w, i :: w in words && 0 <= i < |w| && w[i] != Blank && w[i] in guesses ==> s.answer[i] == w[i]
  {
  }

  /** After a right guess: the letter is written exactly where every
      remaining candidate has it. */
  lemma RevealedAgree(s: State, c: char, key: seq<nat>, words: seq<string>, guesses: seq<char>)
    requires forall w :: w in s.words ==> |w| == |s.answer|
    requires forall w, i :: w in s.words && 0 <= i < |w| && s.answer[i] != Blank ==> w[i] == s.answer[i]
    requires forall w, i :: w in s.words && 0 <= i < |w| && w[i] != Blank && w[i] in s.guesses ==> s.answer[i] == w[i]
    requires forall i :: 0 <= i < |s.answer| && s.answer[i] != Blank ==> s.answer[i] in s.guesses
    requires c !in s.guesses
    requires forall w :: w in words ==> w in s.words
    requires forall w, i :: w in words && 0 <= i < |w| ==> (w[i] == c <==> i in key)
    requires guesses == s.guesses + [c]
    ensures forall w, i :: w in words && 0 <= i < |w| && Reveal(s.answer, key, c)[i] != Blank ==>
              w[i] == Reveal(s.answer, key, c)[i]
    ensures forall w, i :: w in words && 0 <= i < |w| && w[i] != Blank && w[i] in guesses ==>
              Reveal(s.answer, key, c)[i] == w[i]
    ensures forall i :: 0 <= i < |s.answer| && Reveal(s.answer, key, c)[i] != Blank ==>
              Reveal(s.answer, key, c)[i] in guesses
  {
  }

  /** When the game is won, every remaining candidate is the revealed
      answer, so the word announced at line 137 is the only one left. */
  lemma WonIsSolved(letters: set<char>, s: State)
    requires WellFormed(letters, s) && s.status == Won
    ensures forall w :: w in s.words ==> w == s.answer
  {
    forall w | w in s.words ensures w == s.answer {
      forall i | 0 <= i < |w| ensures w[i] == s.answer[i] {
        assert s.answer[i] in s.answer;
      }
    }
  }

  /** Lines 131-135: writes `c` into a character buffer copy of `answer` at
      each position of `key`. */
  method WriteLetter(answer: string, key: seq<nat>, c: char) returns (r: string)
    requires forall j :: 0 <= j < |key| ==> key[j] < |answer|
    ensures r == Reveal(answer, key, c)
  {
    var buffer := new char[|answer|](i requires 0 <= i < |answer| => answer[i]);
    for j := 0 to |key|
      invariant buffer[..] == Reveal(answer, key[..j], c)
    {
      assert key[..j + 1] == key[..j] + [key[j]];
      buffer[key[j]] := c;
    }
    assert key[..|key|] == key;
    r := buffer[..];
  }

  /** The game of lines 64-141 as an object: the fields are the local
      variables the game loop updates. */
  class Session {
    const letters: set<char>
    var possibleWords: seq<string>
    var guesses: seq<char>
    var wrongGuesses: nat
    var answer: string
    var status: Status

    function Current(): State
      reads this
    {
      State(possibleWords, guesses, wrongGuesses, answer, status)
    }

    ghost predicate Valid()
      reads this
    {
      WellFormed(letters, Current())
    }

    /** Lines 64-68: a game over the retained words of `length`. */
    constructor (lex: Lexicon.Lexicon, length: nat)
      requires Lexicon.Valid(lex) && length in lex.groups
      ensures letters == lex.letters
      ensures Current() == Initial(lex.groups[length], length)
      ensures Valid() && status == Playing
    {
      letters := lex.letters;
      possibleWords := lex.groups[length];
      guesses := [];
      wrongGuesses := 0;
      answer := seq(length, _ => Blank);
      status := Playing;
      InitialGroup(lex, length);
      InitialWellFormed(lex.letters, lex.groups[length], length);
    }

    /** Lines 78-141 for the letter `c`; `tie` and `pick` stand for the
        random indices of lines 118 and 125. */
    method Guess(c: char, tie: nat, pick: nat) returns (o: Outcome)
      requires Valid() && status == Playing
      modifies this
      ensures (Current(), o) == Step(letters, old(Current()), c, tie, pick)
      ensures Valid()
    {
      ghost var s := Current();
      if c in guesses {
        return AlreadyGuessed;
      } else if c !in letters {
        return InvalidLetter;
      }
      guesses := guesses + [c];
      var chosen := Choose(possibleWords, c, tie);
      possibleWords := chosen.1;
      ghost var r := Adopt(s, c, chosen, pick);
      if chosen.0 == [] {
        o := Miss(pick);
        assert r.0.status == status && r.0.wrong == wrongGuesses && r.1 == o;
        assert r == (Current(), o);
      } else {
        KeyInRange(s, c, tie);
        o := Hit(c, chosen.0);
        assert r.0.answer == answer && r.0.status == status && r.1 == o;
        assert r == (Current(), o);
      }
      GuessKeepsInvariant(letters, s, c, tie, pick);
    }

    /** Lines 122-128: one more wrong guess; at `MaxWrong` the game is lost
        and one of the candidates is revealed. */
    method Miss(pick: nat) returns (o: Outcome)
      requires possibleWords != []
      modifies this
      ensures possibleWords == old(possibleWords) && guesses == old(guesses) && answer == old(answer)
      ensures wrongGuesses == old(wrongGuesses) + 1
      ensures status == if wrongGuesses >= MaxWrong then Lost else old(status)
      ensures o == if wrongGuesses >= MaxWrong then GameOver(possibleWords[pick % |possibleWords|]) else Incorrect
    {
      wrongGuesses := wrongGuesses + 1;
      if wrongGuesses >= MaxWrong {
        status := Lost;
        return GameOver(possibleWords[pick % |possibleWords|]);
      }
      return Incorrect;
    }

    /** Lines 129-141: `c` is written at the positions `key`; with no blank
        left the game is won. */
    method Hit(c: char, key: seq<nat>) returns (o: Outcome)
      requires forall j :: 0 <= j < |key| ==> key[j] < |answer|
      modifies this
      ensures answer == Reveal(old(answer), key, c)
      ensures status == if Blank !in answer then Won else old(status)
      ensures o == if Blank !in answer then Solved(answer) else Correct(|key|)
      ensures possibleWords == old(possibleWords) && guesses == old(guesses) && wrongGuesses == old(wrongGuesses)
    {
      answer := WriteLetter(answer, key, c);
      if Blank !in answer {
        status := Won;
        return Solved(answer);
      }
      return Correct(|key|);
    }
  }

  /** Lines 91-118: partitions the candidates by the positions of `c` and
      takes the entry at `tie` among the largest groups. */
  method Choose(words: seq<string>, c: char, tie: nat) returns (e: (seq<nat>, seq<string>))
    requires words != []
    ensures e == Chosen(words, c, tie)
  {
    var keys, solutions := Partition(words, c);
    var best := BestGroups(keys, solutions);
    ChosenIsPick(words, c, tie);
    e := best[tie % |best|];
  }

  /** The words of a retained length all have that length, and there are some. */
  lemma InitialGroup(lex: Lexicon.Lexicon, length: nat)
    requires Lexicon.Valid(lex) && length in lex.groups
    ensures lex.groups[length] != [] && length > 0
    ensures forall w :: w in lex.groups[length] ==> |w| == length
  {
    assert |lex.groups[length]| >= Lexicon.MinGroupSize;
  }

  /** The positions of the chosen key lie inside the answer. */
  lemma KeyInRange(s: State, c: char, tie: nat)
    requires s.words != []
    requires forall w :: w in s.words ==> |w| == |s.answer|
    ensures forall j :: 0 <= j < |Chosen(s.words, c, tie).0| ==> Chosen(s.words, c, tie).0[j] < |s.answer|
  {
    var e := Chosen(s.words, c, tie);
    ChosenMembers(s.words, c, tie);
    var w := e.1[0];
    assert w in e.1;
    PatternSpec(w, c);
    assert forall j :: 0 <= j < |e.0| ==> e.0[j] in Pattern(w, c);
  }
}
