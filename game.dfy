/**
 * One browser session of the game: the board of six rows of five tiles, the
 * cursor (current row and tile), the game-over flag, the key colours and the
 * two counters of games played and won, which survive from one game to the
 * next.  The secret word and the dictionary are parameters: choosing the
 * secret at random and loading the word lists happen outside this model.
 */
module Game {
  import opened Evaluation
  import opened Keyboard

  /** Number of attempts, one board row each. */
  const Rows := 6

  datatype Option<T> = None | Some(value: T)

  /** The text of one tile: empty, or the letter typed into it. */
  datatype Tile = Empty | Filled(letter: char)

  /** A key press: ENTER, BACKSPACE, or a letter key. */
  datatype Key = Enter | Backspace | Letter(name: char)

  /** How an accepted guess leaves the game. */
  datatype Ending = Won | Lost | Continue

  /** The outcome of ENTER: rejected as incomplete or unknown, or scored. */
  datatype Submission = Incomplete | NotAWord | Scored(marks: seq<Mark>, ending: Ending)

  function BlankRow(): (row: seq<Tile>)
    ensures |row| == WordLength && forall i :: 0 <= i < |row| ==> row[i] == Empty
  {
    seq(WordLength, _ => Empty)
  }

  function BlankBoard(): (board: seq<seq<Tile>>)
    ensures |board| == Rows && forall r :: 0 <= r < |board| ==> board[r] == BlankRow()
  {
    seq(Rows, _ => BlankRow())
  }

  /** Every tile of the row holds a letter. */
  predicate Complete(row: seq<Tile>)
    ensures Complete(row) <==> Empty !in row
  {
    forall i :: 0 <= i < |row| ==> row[i].Filled?
  }

  /** The letters of a complete row, left to right. */
  function Letters(row: seq<Tile>): (w: seq<char>)
    requires Complete(row)
    ensures |w| == |row| && forall i :: 0 <= i < |row| ==> row[i] == Filled(w[i])
  {
    seq(|row|, i requires 0 <= i < |row| => row[i].letter)
  }

  /** `toUpperCase` on one character, for the ASCII letters. */
  function Upper(c: char): (u: char)
    ensures 'a' <= c <= 'z' ==> 'A' <= u <= 'Z' && u as int == c as int - 32
    ensures !('a' <= c <= 'z') ==> u == c
  {
    if 'a' <= c <= 'z' then (c as int - 32) as char else c
  }

  /** `toLowerCase` on one character, for the ASCII letters. */
  function Lower(c: char): (l: char)
    ensures 'A' <= c <= 'Z' ==> 'a' <= l <= 'z' && l as int == c as int + 32
    ensures !('A' <= c <= 'Z') ==> l == c
  {
    if 'A' <= c <= 'Z' then (c as int + 32) as char else c
  }

  function UpperWord(w: string): (u: string)
    ensures |u| == |w| && forall i :: 0 <= i < |w| ==> u[i] == Upper(w[i])
  {
    seq(|w|, i requires 0 <= i < |w| => Upper(w[i]))
  }

  function LowerWord(w: string): (l: string)
    ensures |l| == |w| && forall i :: 0 <= i < |w| ==> l[i] == Lower(w[i])
  {
    seq(|w|, i requires 0 <= i < |w| => Lower(w[i]))
  }

  /** The word a complete row submits: its letters, upper-cased. */
  function Guessed(row: seq<Tile>): (w: string)
    requires Complete(row)
    ensures |w| == |row| && forall i :: 0 <= i < |row| ==> w[i] == Upper(row[i].letter)
  {
    UpperWord(Letters(row))
  }

  /**
   * The physical keyboard: a key name with no Ctrl, Meta or Alt held becomes
   * ENTER, BACKSPACE or a single letter A to Z; everything else is ignored.
   */
  function PhysicalKey(name: string, modifier: bool): (k: Option<Key>)
    ensures k.Some? ==> !modifier
    ensures k.Some? && k.value.Letter? ==> |name| == 1 && k.value.name == Upper(name[0]) && IsKeyLetter(k.value.name)
    ensures !modifier && |name| == 1 && IsKeyLetter(Upper(name[0])) ==> k == Some(Letter(Upper(name[0])))
    ensures k.Some? && !k.value.Letter? ==>
              (k.value == Enter && UpperWord(name) == "ENTER") || (k.value == Backspace && UpperWord(name) == "BACKSPACE")
    ensures !modifier && UpperWord(name) == "ENTER" ==> k == Some(Enter)
    ensures !modifier && UpperWord(name) == "BACKSPACE" ==> k == Some(Backspace)
  {
    if modifier then None
    else
      var key := UpperWord(name);
      if key == "ENTER" then Some(Enter)
      else if key == "BACKSPACE" then Some(Backspace)
      else if |key| == 1 && IsKeyLetter(key[0]) then Some(Letter(key[0]))
      else None
  }

  /**
   * The win percentage shown on the scoreboard: games won over games played,
   * as a percentage rounded to the nearest integer (halves up), and 0 before
   * any game has been played.
   */
  function WinPercentage(played: nat, won: nat): (r: nat)
    ensures played == 0 ==> r == 0
    ensures played > 0 ==> 2 * r * played <= 200 * won + played < 2 * (r + 1) * played
    ensures won <= played ==> r <= 100
  {
    if played > 0 then (200 * won + played) / (2 * played) else 0
  }

  /** Six rows of five tiles. */
  ghost predicate Shaped(board: seq<seq<Tile>>)
  {
    |board| == Rows && forall r :: 0 <= r < Rows ==> |board[r]| == WordLength
  }

  /** The first `|shades|` rows are complete, and `shades` holds their colours as the evaluator gives them. */
  ghost predicate Coloured(secret: string, board: seq<seq<Tile>>, shades: seq<seq<Mark>>)
    requires |secret| == WordLength && Shaped(board) && |shades| <= Rows
    decreases |shades|
  {
    shades == [] ||
    var n := |shades| - 1;
    Coloured(secret, board, shades[..n]) && Complete(board[n]) && shades[n] == Evaluate(Guessed(board[n]), secret)
  }

  /** Colours depend only on the rows they describe. */
  lemma {:induction false} ColouredFrame(secret: string, board: seq<seq<Tile>>, board': seq<seq<Tile>>, shades: seq<seq<Mark>>)
    requires |secret| == WordLength && Shaped(board) && Shaped(board') && |shades| <= Rows
    requires forall r :: 0 <= r < |shades| ==> board'[r] == board[r]
    requires Coloured(secret, board, shades)
    ensures Coloured(secret, board', shades)
  {
    if shades != [] {
      ColouredFrame(secret, board, board', shades[..|shades| - 1]);
    }
  }

  /** None of the first `row` rows guessed the secret. */
  ghost predicate Missed(secret: string, row: nat, board: seq<seq<Tile>>)
    requires row <= |board| && forall r :: 0 <= r < row ==> Complete(board[r])
  {
    forall r :: 0 <= r < row ==> Guessed(board[r]) != secret
  }

  /**
   * The rows of a game after `row` guesses: six rows of five tiles; each
   * submitted row complete and coloured by the evaluator; rows below the
   * cursor blank; no guess before the last one was the secret.
   */
  ghost predicate Rounds(secret: string, row: nat, board: seq<seq<Tile>>, shades: seq<seq<Mark>>)
  {
    |secret| == WordLength && Shaped(board) && row <= Rows && |shades| == row &&
    Coloured(secret, board, shades) &&
    (forall r :: 0 <= r < row ==> Complete(board[r])) &&
    (forall r :: row < r < Rows ==> board[r] == BlankRow()) &&
    (0 < row ==> Missed(secret, row - 1, board))
  }

  /** The game is decided: the last guess was the secret, or all six rows are used. */
  ghost predicate Ended(secret: string, row: nat, board: seq<seq<Tile>>)
    requires row <= |board| && (0 < row ==> Complete(board[row - 1]))
  {
    0 < row && (Guessed(board[row - 1]) == secret || row == Rows)
  }

  /** Scoring the complete current row, when no guess so far was the secret, moves the cursor down one row. */
  lemma AdvanceKeepsRounds(secret: string, row: nat, board: seq<seq<Tile>>, shades: seq<seq<Mark>>, guess: string, marks: seq<Mark>)
    requires Rounds(secret, row, board, shades) && row < Rows && !Ended(secret, row, board)
    requires Complete(board[row]) && guess == Guessed(board[row]) && marks == Evaluate(guess, secret)
    ensures Rounds(secret, row + 1, board, shades + [marks])
    ensures Ended(secret, row + 1, board) <==> guess == secret || row + 1 == Rows
  {
    assert (shades + [marks])[..row] == shades;
  }

  class Session {
    /** The secret word of the current game. */
    var secret: string
    /** Row of the next guess; equals the number of guesses made. */
    var row: nat
    /** Column the next letter goes to. */
    var tile: nat
    var over: bool
    /** Games played and won since the page was loaded. */
    var played: nat
    var won: nat
    /** The text of the six rows of five tiles. */
    var board: seq<seq<Tile>>
    /** The tile colours of each submitted row. */
    var shades: seq<seq<Mark>>
    /** The colour classes of the on-screen letter keys. */
    var keys: KeyColours

    /**
     * The session invariant: the cursor stays on the board; each submitted row
     * is complete and coloured by the evaluator; rows below the cursor are
     * blank; the game is over exactly when the last guess was the secret or
     * all six rows are used; no earlier guess was the secret; and no more
     * games are won than played.
     */
    ghost predicate Valid()
      reads this
    {
      RowsValid() && tile <= WordLength && (over <==> Finished()) && won <= played
    }

    ghost predicate RowsValid()
      reads this`secret, this`row, this`board, this`shades
    {
      Rounds(secret, row, board, shades)
    }

    ghost predicate Finished()
      requires RowsValid()
      reads this`secret, this`row, this`board, this`shades
    {
      Ended(secret, row, board)
    }

    /** Nothing changes. */
    twostate predicate Untouched()
      reads this
    {
      secret == old(secret) && row == old(row) && tile == old(tile) && over == old(over) &&
      played == old(played) && won == old(won) && board == old(board) && shades == old(shades) && keys == old(keys)
    }

    /** Only the board and the cursor column may change. */
    twostate predicate Editing()
      reads this
    {
      secret == old(secret) && row == old(row) && over == old(over) &&
      played == old(played) && won == old(won) && shades == old(shades) && keys == old(keys)
    }

    /** The effect of typing `letter`: written at the cursor, which moves right, while the row has room. */
    twostate predicate AddedLetter(letter: char)
      requires old(Valid())
      reads this
    {
      Editing() &&
      if old(tile) < WordLength && old(row) < Rows then
        board == old(board)[old(row) := old(board)[old(row)][old(tile) := Filled(letter)]] &&
        tile == old(tile) + 1
      else
        board == old(board) && tile == old(tile)
    }

    /** The effect of BACKSPACE: the cursor moves left and clears the tile it lands on, unless it is at column 0. */
    twostate predicate DeletedLetter()
      requires old(Valid()) && old(row) < Rows
      reads this
    {
      Editing() &&
      if old(tile) > 0 then
        tile == old(tile) - 1 &&
        board == old(board)[old(row) := old(board)[old(row)][old(tile) - 1 := Empty]]
      else
        board == old(board) && tile == old(tile)
    }

    /**
     * The effect of scoring `guess` on the current row: the row is coloured
     * by the evaluator, the keys are merged, the row advances with the cursor
     * at column 0, and the game ends in a win when the guess is the secret,
     * in a loss when the six rows are used, and each ending is counted once.
     */
    twostate predicate Advanced(guess: string, marks: seq<Mark>, ending: Ending)
      requires old(Valid()) && |guess| == WordLength
      reads this
    {
      marks == Evaluate(guess, old(secret)) &&
      ending == (if guess == old(secret) then Won else if old(row) + 1 == Rows then Lost else Continue) &&
      secret == old(secret) && board == old(board) &&
      row == old(row) + 1 && tile == 0 &&
      shades == old(shades) + [marks] &&
      keys == Merged(old(keys), guess, marks, |guess|) &&
      over == (ending != Continue) &&
      played == old(played) + (if ending == Continue then 0 else 1) &&
      won == old(won) + (if ending == Won then 1 else 0)
    }

    /**
     * The effect of ENTER on the current row: an incomplete row or a word
     * missing from the dictionary (compared in lower case) is rejected and
     * nothing changes; otherwise the upper-cased word is scored.
     */
    twostate predicate Submitted(words: set<string>, r: Submission)
      requires old(Valid()) && old(row) < Rows
      reads this
    {
      var current := old(board)[old(row)];
      if !Complete(current) then r == Incomplete && Untouched()
      else if LowerWord(Guessed(current)) !in words then r == NotAWord && Untouched()
      else r.Scored? && Advanced(Guessed(current), r.marks, r.ending)
    }

    /** Page load: counters at zero, then a first game. */
    constructor (secret: string)
      requires |secret| == WordLength
      ensures Valid()
      ensures played == 0 && won == 0
      ensures this.secret == secret && row == 0 && tile == 0 && !over
      ensures board == BlankBoard() && shades == [] && keys == map[]
    {
      this.secret := secret;
      played, won := 0, 0;
      row, tile, over := 0, 0, false;
      board, shades, keys := BlankBoard(), [], map[];
    }

    /** A new game with `newSecret`: fresh board, keyboard and cursor; the counters are kept. */
    method InitGame(newSecret: string)
      requires Valid() && |newSecret| == WordLength
      modifies this
      ensures Valid()
      ensures secret == newSecret && row == 0 && tile == 0 && !over
      ensures board == BlankBoard() && shades == [] && keys == map[]
      ensures played == old(played) && won == old(won)
    {
      secret := newSecret;
      row, tile, over := 0, 0, false;
      board, shades, keys := BlankBoard(), [], map[];
      FocusTile(0, 0);
    }

    /** A click on tile (r, col) moves the cursor there when it is on the current row. */
    method FocusTile(r: int, col: int)
      requires Valid()
      modifies this`tile
      ensures Valid()
      ensures tile == if r == row && 0 <= col <= WordLength - 1 then col else old(tile)
    {
      if r == row && 0 <= col <= WordLength - 1 {
        tile := col;
      }
    }

    /** A key press; once the game is over every key is ignored. */
    method HandleKeyPress(key: Key, words: set<string>) returns (r: Option<Submission>)
      requires Valid()
      modifies this
      ensures Valid()
      ensures old(over) ==> r == None && Untouched()
      ensures !old(over) && key == Enter ==> r.Some? && Submitted(words, r.value)
      ensures !old(over) && key == Backspace ==> r == None && DeletedLetter()
      ensures !old(over) && key.Letter? ==> r == None && AddedLetter(key.name)
    {
      r := None;
      if over {
        return;
      }
      if key == Enter {
        var s := SubmitGuess(words);
        r := Some(s);
      } else if key == Backspace {
        DeleteLetter();
      } else {
        AddLetter(key.name);
      }
    }

    method AddLetter(letter: char)
      requires Valid()
      modifies this`board, this`tile
      ensures Valid()
      ensures AddedLetter(letter)
    {
      if tile < WordLength && row < Rows {
        ColouredFrame(secret, board, board[row := board[row][tile := Filled(letter)]], shades);
        board := board[row := board[row][tile := Filled(letter)]];
        tile := tile + 1;
      }
    }

    method DeleteLetter()
      requires Valid() && row < Rows
      modifies this`board, this`tile
      ensures Valid()
      ensures DeletedLetter()
    {
      if tile > 0 {
        tile := tile - 1;
        ColouredFrame(secret, board, board[row := board[row][tile := Empty]], shades);
        board := board[row := board[row][tile := Empty]];
      }
    }

    method SubmitGuess(words: set<string>) returns (r: Submission)
      requires Valid() && !over
      modifies this
      ensures Valid()
      ensures Submitted(words, r)
    {
      var guess: seq<char> := [];
      var isComplete := true;
      for i := 0 to WordLength
        invariant |guess| == i
        invariant forall j :: 0 <= j < i ==> board[row][j] == Filled(guess[j])
      {
        var letter := board[row][i];
        if letter == Empty {
          isComplete := false;
          break;
        }
        guess := guess + [letter.letter];
      }
      if !isComplete {
        r := Incomplete;
        return;
      }
      assert Letters(board[row]) == guess;
      var guessWord := UpperWord(guess);
      if LowerWord(guessWord) !in words {
        r := NotAWord;
        return;
      }
      var marks, ending := CheckGuess(guessWord);
      r := Scored(marks, ending);
    }

    /** Score the complete current row, whose upper-cased word is `guess`, and advance. */
    method CheckGuess(guess: string) returns (marks: seq<Mark>, ending: Ending)
      requires Valid() && !over
      requires Complete(board[row]) && guess == Guessed(board[row])
      modifies this
      ensures Valid()
      ensures Advanced(guess, marks, ending)
    {
      marks := ScoreTiles(guess, secret);
      var merged := UpdateKeyboard(keys, guess, marks);
      Record(guess, marks, merged);
      ending := Conclude(guess);
    }

    /** Colour the current row with `marks`, install the merged keyboard and move the cursor to the start of the next row. */
    method Record(guess: string, marks: seq<Mark>, merged: KeyColours)
      requires Valid() && !over
      requires Complete(board[row]) && guess == Guessed(board[row]) && marks == Evaluate(guess, secret)
      modifies this`shades, this`keys, this`row, this`tile
      ensures RowsValid() && 0 < row && guess == Guessed(board[row - 1])
      ensures shades == old(shades) + [marks] && keys == merged
      ensures row == old(row) + 1 && tile == 0
    {
      AdvanceKeepsRounds(secret, row, board, shades, guess, marks);
      shades, keys, row, tile := shades + [marks], merged, row + 1, 0;
    }

    /** Decide the game after the row of `guess` has been scored: a win, a loss after six rows, or the next row. */
    method Conclude(guess: string) returns (ending: Ending)
      requires RowsValid() && 0 < row && guess == Guessed(board[row - 1])
      requires tile == 0 && !over && won <= played
      modifies this`over, this`played, this`won, this`tile
      ensures Valid()
      ensures ending == (if guess == secret then Won else if row == Rows then Lost else Continue)
      ensures tile == 0 && over == (ending != Continue)
      ensures played == old(played) + (if ending == Continue then 0 else 1)
      ensures won == old(won) + (if ending == Won then 1 else 0)
    {
      if guess == secret {
        won := won + 1;
        played := played + 1;
        over := true;
        ending := Won;
      } else if row == Rows {
        played := played + 1;
        over := true;
        ending := Lost;
      } else {
        ending := Continue;
        FocusTile(row, 0);
      }
    }
  }
}
