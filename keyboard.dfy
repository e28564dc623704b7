/**
 * Colours of the on-screen keyboard.  Each letter key carries at most one of
 * the classes absent, present and correct; a submitted guess upgrades the key
 * of every guessed letter along the order none < absent < present < correct
 * and never downgrades it.
 */
module Keyboard {
  import opened Evaluation

  /** The colour class of each letter key; a letter missing from the map has none. */
  type KeyColours = map<char, Mark>

  /** The on-screen keyboard has one key per letter A to Z (ENTER and BACKSPACE match no letter). */
  predicate IsKeyLetter(c: char)
  {
    'A' <= c <= 'Z'
  }

  /** Whether the key of `c` carries the class of `m`. */
  predicate HasClass(keys: KeyColours, c: char, m: Mark)
  {
    c in keys && keys[c] == m
  }

  /** Height in the order absent < present < correct. */
  function Rank(m: Mark): nat
  {
    match m
    case Absent => 1
    case Present => 2
    case Correct => 3
  }

  /** Height of a key, with 0 for a key that has no colour yet. */
  function KeyRank(keys: KeyColours, c: char): nat
  {
    if c in keys then Rank(keys[c]) else 0
  }

  function Max(a: int, b: int): int
  {
    if a <= b then b else a
  }

  /** Raising the key of `c` to at least `m`: the join of the order. */
  function Join(keys: KeyColours, c: char, m: Mark): KeyColours
  {
    if KeyRank(keys, c) < Rank(m) then keys[c := m] else keys
  }

  /** The keyboard after the first `k` letters of a guess have been applied, in order. */
  function Merged(keys: KeyColours, guess: seq<char>, marks: seq<Mark>, k: nat): KeyColours
    requires |marks| == |guess| && k <= |guess|
  {
    if k == 0 then keys
    else
      var prev := Merged(keys, guess, marks, k - 1);
      if IsKeyLetter(guess[k - 1]) then Join(prev, guess[k - 1], marks[k - 1]) else prev
  }

  /** The highest mark given to `c` among the first `k` positions, 0 when `c` is not among them. */
  function Best(guess: seq<char>, marks: seq<Mark>, c: char, k: nat): nat
    requires |marks| == |guess| && k <= |guess|
  {
    if k == 0 then 0
    else Max(Best(guess, marks, c, k - 1), if guess[k - 1] == c then Rank(marks[k - 1]) else 0)
  }

  /**
   * After an update every letter key holds the higher of its old colour and
   * the best mark its letter received; keys of other characters keep theirs.
   */
  lemma {:induction false} MergedIsJoin(keys: KeyColours, guess: seq<char>, marks: seq<Mark>, k: nat)
    requires |marks| == |guess| && k <= |guess|
    ensures forall c :: KeyRank(Merged(keys, guess, marks, k), c)
                        == if IsKeyLetter(c) then Max(KeyRank(keys, c), Best(guess, marks, c, k)) else KeyRank(keys, c)
  {
    if k > 0 {
      MergedIsJoin(keys, guess, marks, k - 1);
    }
  }

  /** A key is never downgraded by an update. */
  lemma NeverDowngrades(keys: KeyColours, guess: seq<char>, marks: seq<Mark>, c: char)
    requires |marks| == |guess|
    ensures KeyRank(keys, c) <= KeyRank(Merged(keys, guess, marks, |guess|), c)
  {
    MergedIsJoin(keys, guess, marks, |guess|);
  }

  /** The key of a letter that is not in the guess keeps exactly its colour. */
  lemma {:induction false} UnguessedUnchanged(keys: KeyColours, guess: seq<char>, marks: seq<Mark>, k: nat, c: char)
    requires |marks| == |guess| && k <= |guess|
    requires c !in guess[..k]
    ensures c in Merged(keys, guess, marks, k) <==> c in keys
    ensures c in keys ==> Merged(keys, guess, marks, k)[c] == keys[c]
  {
    if k > 0 {
      assert guess[..k] == guess[..k - 1] + [guess[k - 1]];
      UnguessedUnchanged(keys, guess, marks, k - 1, c);
    }
  }

  /**
   * The key update of the game: for each guessed letter in order, its key is
   * set to correct unless it already is; to present unless it is correct or
   * present; to absent only when it has no colour.
   */
  method UpdateKeyboard(keys: KeyColours, guessArray: seq<char>, tileStates: seq<Mark>) returns (updated: KeyColours)
    requires |tileStates| == |guessArray|
    ensures updated == Merged(keys, guessArray, tileStates, |guessArray|)
  {
    updated := keys;
    for index := 0 to |guessArray|
      invariant updated == Merged(keys, guessArray, tileStates, index)
    {
      var letter := guessArray[index];
      if IsKeyLetter(letter) {
        var currentState := tileStates[index];
        if currentState == Correct && !HasClass(updated, letter, Correct) {
          updated := updated[letter := Correct];
        } else if currentState == Present && !HasClass(updated, letter, Correct) && !HasClass(updated, letter, Present) {
          updated := updated[letter := Present];
        } else if currentState == Absent && !HasClass(updated, letter, Correct) && !HasClass(updated, letter, Present)
                  && !HasClass(updated, letter, Absent) {
          updated := updated[letter := Absent];
        }
      }
    }
  }
}
