# Infinite Wordle: a verified model of the game core

This is a Dafny model of the browser Wordle clone in `script.js`. It covers three parts, one module each:

- **Evaluation** (`evaluation.dfy`) is the guess evaluator. The first pass marks every position where the guess and the secret agree as correct and consumes that letter of a working copy of the secret. The second pass goes left to right over the remaining positions. It marks a position present and consumes the first unconsumed copy of its letter, or marks it absent when no copy is left.
  - The algorithm is stated as functions: `SecondPass` and `Evaluate`.
  - `Reference` is an independent closed form. A misplaced letter is present exactly when fewer misplaced copies of it stand to its left than the secret has spare copies.
  - `EvaluateIsReference` proves that the two agree.
  - Further lemmas prove what the colouring means: correct exactly where the letters agree, each letter credited min(copies in guess, copies in secret) times, and present handed out left to right.
  - `ScoreTiles` is the evaluator's pair of loops over an array copy of the secret. It is proved to compute `Evaluate`.
- **Keyboard** (`keyboard.dfy`) holds the colours of the on-screen letter keys, as a map from letter to mark. `UpdateKeyboard` is the update loop with its three class tests. It is proved equal to a fold of the join of the order none < absent < present < correct. The lemmas show that keys only move up, end at the maximum of their old colour and the marks their letter received, and keep their colour when their letter was not guessed.
- **Game** (`game.dfy`) is the session: the board of six rows of five tiles, the cursor (current row and tile), the game-over flag, the key colours, and the counters of games played and won.
  - The class `Session` has one method per operation of the page: `InitGame`, `FocusTile`, `HandleKeyPress`, `AddLetter`, `DeleteLetter`, `SubmitGuess` and `CheckGuess`.
  - Its invariant `Valid` holds that:
    - every submitted row is complete and carries the colours the evaluator gives it;
    - the rows below the cursor are blank, and the cursor stays within 0..5;
    - no guess before the last was the secret;
    - the game is over exactly when the last guess was the secret or all six rows are used;
    - games won never exceed games played.
  - Each method states its whole effect on the session.

The secret word and the dictionary are parameters. The page picks the secret at random from a word list, and the word lists are defined in files that are not part of this model. The dictionary is a set of lower-case words. The page compares the upper-cased guess with the secret character by character, both for the colours and for the win (script.js:163, 184, 196, 216), and lower-cases the guess only for the dictionary test (script.js:165). The model makes the same comparisons and takes the secret exactly as given.

A row is accepted once all five tiles are non-empty (script.js:148-156). The cursor can move to any column of the current row, so tiles can be filled in any order.

## Model

| member | source | states |
|---|---|---|
| Evaluation.IndexOf | script.js:196 | `indexOf` on the working copy gives the first index holding the letter, or -1 exactly when no slot holds it |
| Evaluation.FirstPass | script.js:176-189 | the working copy after the first pass keeps the secret's length (its contents are characterised by FirstPassFree) |
| Evaluation.SecondPass | script.js:192-206 | the second pass after k positions has produced one mark per visited position and a working copy of the secret's length (its contents are characterised by SecondPassAgrees and SparePool) |
| Evaluation.Evaluate | script.js:174-206 | one mark per guessed letter |
| Evaluation.Reference | script.js:181-206 | one mark per guessed letter; the closed form the two passes are proved equal to |
| Evaluation.FirstPassFree | script.js:181-189 | after the first pass the working copy holds, of every letter, exactly the secret's copies that no exact match claimed |
| Evaluation.SparePool | script.js:192-206 | after k positions of the second pass the working copy holds, of every letter, the spare copies minus those claimed by the misplaced copies so far (never below zero) |
| Evaluation.SecondPassAgrees | script.js:192-206 | the marks of the second pass after k positions equal the closed form on those positions |
| Evaluation.EvaluateIsReference | script.js:174-206 | the two-pass colouring equals the closed form on every input of equal lengths |
| Evaluation.CorrectExactly | script.js:181-189 | a position is marked correct if and only if guess and secret hold the same letter there |
| Evaluation.AllCorrectIffEqual | script.js:181-216 | every position is correct if and only if the guess is the secret |
| Evaluation.CountsSplit | script.js:181-189 | the copies of each letter among the first k positions split into exact matches plus misplaced copies, in the guess and in the secret alike |
| Evaluation.CreditedByReference | script.js:192-206 | among the first k positions each letter is credited its exact matches plus min(spare copies, misplaced copies so far) |
| Evaluation.Multiplicity | script.js:187-201 | the multiset of letters marked correct or present is the intersection of the guess's and the secret's letter multisets, so no copy of a secret letter is credited twice |
| Evaluation.LooseGrows | script.js:192-205 | a misplaced copy of a letter raises the count of misplaced copies of that letter at every later position |
| Evaluation.PresentLeftToRight | script.js:192-205 | if a misplaced copy of a letter is absent, every later misplaced copy of the same letter is absent too |
| Evaluation.TraceAgainstCrane | script.js:174-206 | TRACE against CRANE colours as absent, correct, correct, present, correct |
| Evaluation.BabbyAgainstAbbey | script.js:174-206 | BABBY against ABBEY colours as present, present, correct, absent, correct: only two of the three B's are credited |
| Evaluation.ScoreTiles | script.js:174-206 | the two loops over an array copy of the secret produce exactly the colouring `Evaluate` |
| Keyboard.MergedIsJoin | script.js:242-261 | after an update each letter key holds the higher of its old colour and the best mark its letter received; other keys keep theirs |
| Keyboard.NeverDowngrades | script.js:245-258 | no key colour moves down in none < absent < present < correct |
| Keyboard.UnguessedUnchanged | script.js:245-258 | the key of a letter absent from the guess keeps exactly its colour, or its lack of one |
| Keyboard.UpdateKeyboard | script.js:242-261 | the update loop with its three class tests equals the fold of the join over the guessed letters in order |
| Game.BlankBoard | script.js:26-41 | six rows of five empty tiles |
| Game.Complete | script.js:148-156 | a row is complete exactly when none of its tiles is empty |
| Game.Letters | script.js:148-157 | the letters of a complete row, in column order |
| Game.Upper | script.js:163 | `toUpperCase` on one character: ASCII lower-case letters move to upper case, everything else is kept |
| Game.Lower | script.js:165 | `toLowerCase` on one character: ASCII upper-case letters move to lower case, everything else is kept |
| Game.UpperWord | script.js:163 | `toUpperCase` on a word: same length, each character upper-cased as by Upper |
| Game.LowerWord | script.js:165 | `toLowerCase` on a word: same length, each character lower-cased as by Lower |
| Game.Guessed | script.js:148-163 | the word a complete row submits: one character per tile, each the upper case of the tile's letter |
| Game.PhysicalKey | script.js:290-310 | a key with Ctrl, Meta or Alt held is ignored; a one-character name whose upper case is A..Z becomes that letter key; any other accepted key is ENTER or BACKSPACE |
| Game.WinPercentage | script.js:286 | 0 before any game; otherwise 100·won/played rounded to the nearest integer, halves up, and at most 100 when won ≤ played |
| Game.ColouredFrame | script.js:123-140 | editing rows below the submitted ones leaves the colours of the submitted rows valid |
| Game.AdvanceKeepsRounds | script.js:209-216 | scoring the complete current row keeps the row invariant one row further down, and the game is then decided exactly when the guess was the secret or the sixth row was used |
| Game.Session.constructor | script.js:2-7 | page load: counters at zero, empty board and keyboard, cursor at row 0 column 0, game running |
| Game.Session.InitGame | script.js:19-55 | a new game with the given secret: empty board and keyboard, cursor at (0, 0), game running, counters kept, invariant kept |
| Game.Session.FocusTile | script.js:84-89 | the cursor moves to column col only when r is the current row and 0 ≤ col ≤ 4; nothing else changes |
| Game.Session.HandleKeyPress | script.js:110-120 | once the game is over nothing changes; otherwise ENTER submits, BACKSPACE deletes and any other key adds a letter, each with its full effect |
| Game.Session.AddLetter | script.js:123-130 | the letter is written at the cursor, which moves right, only when column < 5 and row < 6; otherwise nothing changes |
| Game.Session.DeleteLetter | script.js:133-140 | when the cursor is past column 0 it moves left and clears the tile it lands on; otherwise nothing changes |
| Game.Session.SubmitGuess | script.js:143-171 | an incomplete row or a word whose lower case is not in the dictionary is rejected with the whole session unchanged; otherwise the upper-cased word is scored |
| Game.Session.CheckGuess | script.js:174-239 | the row gets the evaluator's colours, the keys are merged, the row advances by one with the cursor at column 0; a guess equal to the secret wins, otherwise the sixth row loses, otherwise play goes on; each ending counts one game played and a win also one game won |
| Game.Session.Record | script.js:208-212 | the colours of the row are recorded, the merged keyboard installed, the row advanced by one and the cursor put at column 0, with the row invariant kept |
| Game.Session.Conclude | script.js:215-238 | win when the guess is the secret, loss when six rows are used, otherwise continue; played and won counted accordingly and the session invariant restored |

## Left out

- Rendering is not modelled: building the board and keyboard elements, CSS classes, the flip animation, tile-focus styling, the attempts and statistics displays, and messages. The key colours are a map from letter to mark instead of class strings, and the board holds tile texts.
- The timers are not modelled: the delay before a new game starts and the one that clears a message. `InitGame` is the new game itself; the statistics display that precedes it is rendering.
- Choosing the secret with `Math.random` is not modelled. The secret is a parameter of the constructor and of `InitGame`.
- The word lists, and the build script `awords.py` that produces one of them, are not part of this model. The dictionary is a parameter.
- Game.Upper, Game.Lower: only ASCII letters change case. JavaScript's full Unicode case mapping, which can also change a string's length, is not modelled.
- Game.WinPercentage: it rounds the exact fraction. The source rounds a floating-point quotient times 100, and floating-point error near exact halves is not modelled. For 29 games won of 200 played, the source computes 0.145 * 100 as 14.499999999999998 and shows 14, while the model gives (200 * 29 + 200) / 400 = 15.
- Game.PhysicalKey: it yields the key that the listener passes on. The listener calls the submit, delete and add operations directly rather than through `HandleKeyPress`, behind the same game-over test, so the two routes have the same effect. `preventDefault` is not modelled. It inherits the ASCII-only case mapping of `Upper`: JavaScript upper-cases the key name 'ı' to 'I' and the listener types I, while the model ignores that key.
- Game.Session.DeleteLetter: it requires the current row to be on the board (row < 6). The source would look up a tile of a row that does not exist there. `HandleKeyPress` only calls it while the game runs, when the invariant guarantees row < 6.
- Game.Session.FocusTile: tile clicks come only from existing tiles. The model accepts any row and column and moves the cursor only under the source's test.
- Evaluation.ScoreTiles: entries of the tile states that the first pass leaves unset start as absent. The source tests them only against "correct", and the second pass overwrites each of them.
