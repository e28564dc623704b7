/**
 * The guess evaluator of the game: colouring a guess against the secret with
 * the two-pass rule that keeps duplicate letters honest.
 *
 * First pass: every position where the guess and the secret agree is marked
 * Correct and the secret's letter there is consumed.  Second pass, left to
 * right over the other positions: the first unconsumed occurrence of the
 * guessed letter in the secret, if any, is consumed and the position is
 * marked Present; otherwise the position is Absent.
 *
 * `SecondPass`/`Evaluate` state that algorithm as functions, `Reference`
 * gives an independent closed form of the same colouring (a position is
 * Present when fewer earlier misplaced copies of its letter exist than spare
 * copies in the secret), `EvaluateIsReference` proves the two equal, and the
 * lemmas after it prove what the colouring means.  `ScoreTiles` is the
 * source's pair of loops over an array copy of the secret, proved to compute
 * `Evaluate`.
 */
module Evaluation {

  /** Every word of the game has five letters. */
  const WordLength := 5

  /** Colour of one tile: the tile states of the game. */
  datatype Mark = Absent | Present | Correct

  /** A slot of the working copy of the secret: consumed (null) or still holding its letter. */
  datatype Slot = Spent | Free(letter: char)

  function Min(a: int, b: int): int
  {
    if a <= b then a else b
  }

  /** Array `indexOf`: the first index holding `x`, or -1 when there is none. */
  function IndexOf(pool: seq<Slot>, x: Slot): (r: int)
    ensures -1 <= r < |pool|
    ensures 0 <= r ==> pool[r] == x && forall j :: 0 <= j < r ==> pool[j] != x
    ensures r == -1 ==> forall j :: 0 <= j < |pool| ==> pool[j] != x
  {
    if |pool| == 0 then -1
    else if pool[0] == x then 0
    else
      var r := IndexOf(pool[1..], x);
      if r == -1 then -1 else r + 1
  }

  /** The working copy of the secret after the first pass: exact matches are consumed. */
  function FirstPass(guess: seq<char>, secret: seq<char>): (pool: seq<Slot>)
    requires |guess| == |secret|
    ensures |pool| == |secret|
  {
    seq(|secret|, i requires 0 <= i < |secret| =>
      if guess[i] == secret[i] then Spent else Free(secret[i]))
  }

  /** The marks of the first `k` positions and the working copy after the second pass has visited them. */
  datatype Pass = Pass(marks: seq<Mark>, pool: seq<Slot>)

  function SecondPass(guess: seq<char>, secret: seq<char>, k: nat): (p: Pass)
    requires |guess| == |secret| && k <= |guess|
    ensures |p.marks| == k && |p.pool| == |secret|
    decreases k
  {
    if k == 0 then Pass([], FirstPass(guess, secret))
    else
      var prev := SecondPass(guess, secret, k - 1);
      var i := k - 1;
      if guess[i] == secret[i] then Pass(prev.marks + [Correct], prev.pool)
      else
        var j := IndexOf(prev.pool, Free(guess[i]));
        if j != -1 then Pass(prev.marks + [Present], prev.pool[j := Spent])
        else Pass(prev.marks + [Absent], prev.pool)
  }

  /** The colouring of `guess` against `secret`. */
  function Evaluate(guess: seq<char>, secret: seq<char>): (marks: seq<Mark>)
    requires |guess| == |secret|
    ensures |marks| == |guess|
  {
    SecondPass(guess, secret, |guess|).marks
  }

  // ---------------------------------------------------------------------------
  // Counting letters over prefixes

  /** Positions before `k` where the guess holds `c` and the secret does not. */
  function Loose(guess: seq<char>, secret: seq<char>, c: char, k: nat): nat
    requires |guess| == |secret| && k <= |guess|
  {
    if k == 0 then 0
    else Loose(guess, secret, c, k - 1) + (if guess[k - 1] == c && secret[k - 1] != c then 1 else 0)
  }

  /** Positions before `k` where the secret holds `c` and the guess does not. */
  function Unmatched(guess: seq<char>, secret: seq<char>, c: char, k: nat): nat
    requires |guess| == |secret| && k <= |guess|
  {
    if k == 0 then 0
    else Unmatched(guess, secret, c, k - 1) + (if secret[k - 1] == c && guess[k - 1] != c then 1 else 0)
  }

  /** Positions before `k` where both hold `c`. */
  function Exact(guess: seq<char>, secret: seq<char>, c: char, k: nat): nat
    requires |guess| == |secret| && k <= |guess|
  {
    if k == 0 then 0
    else Exact(guess, secret, c, k - 1) + (if guess[k - 1] == c && secret[k - 1] == c then 1 else 0)
  }

  /** Copies of `c` in the secret that no exact match claims. */
  function Spare(guess: seq<char>, secret: seq<char>, c: char): nat
    requires |guess| == |secret|
  {
    Unmatched(guess, secret, c, |secret|)
  }

  /**
   * The colouring in closed form: a misplaced letter is Present exactly when
   * fewer misplaced copies of it stand to its left than there are spare
   * copies in the secret.
   */
  function Reference(guess: seq<char>, secret: seq<char>): (marks: seq<Mark>)
    requires |guess| == |secret|
    ensures |marks| == |guess|
  {
    seq(|guess|, i requires 0 <= i < |guess| =>
      if guess[i] == secret[i] then Correct
      else if Loose(guess, secret, guess[i], i) < Spare(guess, secret, guess[i]) then Present
      else Absent)
  }

  /** The letters of the guess credited with a Correct or Present mark among the first `k` positions. */
  function Credited(guess: seq<char>, marks: seq<Mark>, k: nat): multiset<char>
    requires |marks| == |guess| && k <= |guess|
  {
    if k == 0 then multiset{}
    else Credited(guess, marks, k - 1) + (if marks[k - 1] != Absent then multiset{guess[k - 1]} else multiset{})
  }

  // ---------------------------------------------------------------------------
  // Lemmas

  /** The first pass leaves exactly the spare copies of every letter free. */
  lemma {:induction false} FirstPassFree(guess: seq<char>, secret: seq<char>, k: nat)
    requires |guess| == |secret| && k <= |secret|
    ensures forall c :: multiset(FirstPass(guess, secret)[..k])[Free(c)] == Unmatched(guess, secret, c, k)
  {
    if k > 0 {
      FirstPassFree(guess, secret, k - 1);
      var pool := FirstPass(guess, secret);
      assert pool[..k] == pool[..k - 1] + [pool[k - 1]];
    }
  }

  /** Consuming slot `j`, which holds `l`, takes one free copy of `l` out of the working copy and leaves the other letters alone. */
  lemma ConsumeOne(pool: seq<Slot>, j: nat, l: char)
    requires j < |pool| && pool[j] == Free(l)
    ensures forall c :: multiset(pool[j := Spent])[Free(c)] == multiset(pool)[Free(c)] - (if c == l then 1 else 0)
  {
  }

  /**
   * After the second pass has visited `k` positions the working copy holds,
   * of every letter, the spare copies that the misplaced copies so far have
   * not claimed.
   */
  lemma {:induction false} SparePool(guess: seq<char>, secret: seq<char>, k: nat, c: char)
    requires |guess| == |secret| && k <= |guess|
    ensures multiset(SecondPass(guess, secret, k).pool)[Free(c)]
            == Spare(guess, secret, c) - Min(Spare(guess, secret, c), Loose(guess, secret, c, k))
  {
    if k == 0 {
      FirstPassFree(guess, secret, |secret|);
      assert FirstPass(guess, secret)[..|secret|] == FirstPass(guess, secret);
    } else {
      SparePool(guess, secret, k - 1, c);
      var prev := SecondPass(guess, secret, k - 1);
      var l := guess[k - 1];
      if l != secret[k - 1] {
        var j := IndexOf(prev.pool, Free(l));
        if j != -1 {
          ConsumeOne(prev.pool, j, l);
        } else {
          assert Free(l) !in multiset(prev.pool);
        }
      }
    }
  }

  /** The marks of the second pass after `k` positions agree with `Reference` on those positions. */
  lemma {:induction false} SecondPassAgrees(guess: seq<char>, secret: seq<char>, k: nat)
    requires |guess| == |secret| && k <= |guess|
    ensures SecondPass(guess, secret, k).marks == Reference(guess, secret)[..k]
  {
    if k > 0 {
      SecondPassAgrees(guess, secret, k - 1);
      var ref := Reference(guess, secret);
      var prev := SecondPass(guess, secret, k - 1);
      assert SecondPass(guess, secret, k).marks == prev.marks + [ref[k - 1]] by {
        var l := guess[k - 1];
        if l != secret[k - 1] {
          SparePool(guess, secret, k - 1, l);
          var spare, loose := Spare(guess, secret, l), Loose(guess, secret, l, k - 1);
          assert ref[k - 1] == if loose < spare then Present else Absent;
          if IndexOf(prev.pool, Free(l)) != -1 {
            assert Free(l) in multiset(prev.pool);
          } else {
            assert Free(l) !in multiset(prev.pool);
          }
        }
      }
      assert ref[..k] == ref[..k - 1] + [ref[k - 1]];
    }
  }

  /** The two-pass algorithm computes the closed-form colouring. */
  lemma EvaluateIsReference(guess: seq<char>, secret: seq<char>)
    requires |guess| == |secret|
    ensures Evaluate(guess, secret) == Reference(guess, secret)
  {
    SecondPassAgrees(guess, secret, |guess|);
    assert Reference(guess, secret)[..|guess|] == Reference(guess, secret);
  }

  /** A position is Correct exactly when guess and secret agree there. */
  lemma CorrectExactly(guess: seq<char>, secret: seq<char>, i: nat)
    requires |guess| == |secret| && i < |guess|
    ensures Evaluate(guess, secret)[i] == Correct <==> guess[i] == secret[i]
  {
    EvaluateIsReference(guess, secret);
  }

  /** A guess is coloured all Correct exactly when it is the secret. */
  lemma AllCorrectIffEqual(guess: seq<char>, secret: seq<char>)
    requires |guess| == |secret|
    ensures (forall i :: 0 <= i < |guess| ==> Evaluate(guess, secret)[i] == Correct) <==> guess == secret
  {
    EvaluateIsReference(guess, secret);
    if forall i :: 0 <= i < |guess| ==> Evaluate(guess, secret)[i] == Correct {
      forall i | 0 <= i < |guess| ensures guess[i] == secret[i] {
        assert Reference(guess, secret)[i] == Correct;
      }
    }
  }

  /** The guess splits into exact and misplaced copies; so does the secret into exact and spare ones. */
  lemma {:induction false} CountsSplit(guess: seq<char>, secret: seq<char>, k: nat)
    requires |guess| == |secret| && k <= |guess|
    ensures forall c :: multiset(guess[..k])[c] == Exact(guess, secret, c, k) + Loose(guess, secret, c, k)
    ensures forall c :: multiset(secret[..k])[c] == Exact(guess, secret, c, k) + Unmatched(guess, secret, c, k)
  {
    if k > 0 {
      CountsSplit(guess, secret, k - 1);
      assert guess[..k] == guess[..k - 1] + [guess[k - 1]];
      assert secret[..k] == secret[..k - 1] + [secret[k - 1]];
    }
  }

  /** Among the first `k` positions, each letter is credited for its exact matches plus as many misplaced copies as the secret can spare. */
  lemma {:induction false} CreditedByReference(guess: seq<char>, secret: seq<char>, k: nat, c: char)
    requires |guess| == |secret| && k <= |guess|
    ensures Credited(guess, Reference(guess, secret), k)[c]
            == Exact(guess, secret, c, k) + Min(Spare(guess, secret, c), Loose(guess, secret, c, k))
  {
    if k > 0 {
      CreditedByReference(guess, secret, k - 1, c);
      var ref := Reference(guess, secret);
      var i := k - 1;
      assert ref[i] != Absent <==>
             guess[i] == secret[i] || Loose(guess, secret, guess[i], i) < Spare(guess, secret, guess[i]);
    }
  }

  /**
   * No letter instance of the secret is credited twice: for every letter,
   * the Correct and Present marks on it number min(copies in the guess,
   * copies in the secret).
   */
  lemma Multiplicity(guess: seq<char>, secret: seq<char>)
    requires |guess| == |secret|
    ensures Credited(guess, Evaluate(guess, secret), |guess|) == multiset(guess) * multiset(secret)
  {
    var n := |guess|;
    EvaluateIsReference(guess, secret);
    CountsSplit(guess, secret, n);
    assert guess[..n] == guess && secret[..n] == secret;
    forall c ensures Credited(guess, Evaluate(guess, secret), n)[c] == (multiset(guess) * multiset(secret))[c] {
      CreditedByReference(guess, secret, n, c);
    }
  }

  /** A misplaced copy of a letter adds one to the count of misplaced copies after it. */
  lemma {:induction false} LooseGrows(guess: seq<char>, secret: seq<char>, i: nat, j: nat)
    requires |guess| == |secret| && i < j <= |guess| && guess[i] != secret[i]
    ensures Loose(guess, secret, guess[i], i) < Loose(guess, secret, guess[i], j)
  {
    if j > i + 1 {
      LooseGrows(guess, secret, i, j - 1);
    }
  }

  /**
   * Present marks go left to right: once a misplaced copy of a letter is
   * Absent, every later misplaced copy of that letter is Absent too.
   */
  lemma PresentLeftToRight(guess: seq<char>, secret: seq<char>, i: nat, j: nat)
    requires |guess| == |secret| && i < j < |guess|
    requires guess[i] == guess[j] && guess[j] != secret[j]
    requires Evaluate(guess, secret)[i] == Absent
    ensures Evaluate(guess, secret)[j] == Absent
  {
    EvaluateIsReference(guess, secret);
    LooseGrows(guess, secret, i, j);
  }

  /** The worked example: secret CRANE, guess TRACE. */
  lemma TraceAgainstCrane()
    ensures Evaluate("TRACE", "CRANE") == [Absent, Correct, Correct, Present, Correct]
  {
    var g, s := "TRACE", "CRANE";
    assert Spare(g, s, 'T') == 0 by {
      assert g[0] == 'T' && g[1] == 'R' && g[2] == 'A' && g[3] == 'C' && g[4] == 'E';
      assert s[0] == 'C' && s[1] == 'R' && s[2] == 'A' && s[3] == 'N' && s[4] == 'E';
      assert Unmatched(g, s, 'T', 5) == 0;
    }
    assert Spare(g, s, 'C') == 1 by {
      assert g[0] == 'T' && g[1] == 'R' && g[2] == 'A' && g[3] == 'C' && g[4] == 'E';
      assert s[0] == 'C' && s[1] == 'R' && s[2] == 'A' && s[3] == 'N' && s[4] == 'E';
      assert Unmatched(g, s, 'C', 5) == 1;
    }
    var r := Reference(g, s);
    assert r[0] == Absent by {
      assert g[0] == 'T' && s[0] == 'C';
    }
    assert r[1] == Correct && r[2] == Correct && r[4] == Correct by {
      assert g[1] == s[1] && g[2] == s[2] && g[4] == s[4];
    }
    assert r[3] == Present by {
      assert g[0] == 'T' && g[1] == 'R' && g[2] == 'A' && g[3] == 'C' && s[3] == 'N';
      assert Loose(g, s, 'C', 3) == 0;
    }
    assert r == [Absent, Correct, Correct, Present, Correct];
    EvaluateIsReference(g, s);
  }

  /** Three B's guessed against two: the first two misplaced B's are credited, the third is Absent. */
  lemma BabbyAgainstAbbey()
    ensures Evaluate("BABBY", "ABBEY") == [Present, Present, Correct, Absent, Correct]
  {
    var g, s := "BABBY", "ABBEY";
    assert Spare(g, s, 'A') == 1 && Spare(g, s, 'B') == 1 by {
      assert g[0] == 'B' && g[1] == 'A' && g[2] == 'B' && g[3] == 'B' && g[4] == 'Y';
      assert s[0] == 'A' && s[1] == 'B' && s[2] == 'B' && s[3] == 'E' && s[4] == 'Y';
      assert Unmatched(g, s, 'A', 5) == 1;
      assert Unmatched(g, s, 'B', 5) == 1;
    }
    var r := Reference(g, s);
    assert r[0] == Present by {
      assert g[0] == 'B' && s[0] == 'A';
    }
    assert r[1] == Present by {
      assert g[0] == 'B' && g[1] == 'A' && s[1] == 'B';
      assert Loose(g, s, 'A', 1) == 0;
    }
    assert r[2] == Correct && r[4] == Correct by {
      assert g[2] == s[2] && g[4] == s[4];
    }
    assert r[3] == Absent by {
      assert g[0] == 'B' && g[1] == 'A' && g[2] == 'B' && g[3] == 'B';
      assert s[0] == 'A' && s[1] == 'B' && s[2] == 'B' && s[3] == 'E';
      assert Loose(g, s, 'B', 3) == 1;
    }
    assert r == [Present, Present, Correct, Absent, Correct];
    EvaluateIsReference(g, s);
  }

  // ---------------------------------------------------------------------------
  // The evaluator as the source runs it

  /**
   * The two loops of the evaluator over an array copy of the secret:
   * exact matches first, then the misplaced letters left to right, each
   * consuming the first unconsumed copy it finds.
   */
  method ScoreTiles(guess: seq<char>, secret: seq<char>) returns (tileStates: seq<Mark>)
    requires |guess| == WordLength && |secret| == WordLength
    ensures tileStates == Evaluate(guess, secret)
  {
    var wordArray := new Slot[WordLength](i => if 0 <= i < |secret| then Free(secret[i]) else Spent);
    // A tile state not yet set reads as "not correct"; the second pass overwrites every such entry.
    var states := new Mark[WordLength](_ => Absent);
    for i := 0 to WordLength
      invariant forall j :: 0 <= j < WordLength ==>
                  wordArray[j] == if j < i then FirstPass(guess, secret)[j] else Free(secret[j])
      invariant forall j :: 0 <= j < WordLength ==>
                  states[j] == if j < i && guess[j] == secret[j] then Correct else Absent
    {
      if wordArray[i] == Free(guess[i]) {
        states[i] := Correct;
        wordArray[i] := Spent;
      }
    }
    assert wordArray[..] == SecondPass(guess, secret, 0).pool;
    for i := 0 to WordLength
      invariant states[..i] == SecondPass(guess, secret, i).marks
      invariant forall j :: i <= j < WordLength ==> (states[j] == Correct <==> guess[j] == secret[j])
      invariant wordArray[..] == SecondPass(guess, secret, i).pool
    {
      if states[i] != Correct {
        var letterIndex := IndexOf(wordArray[..], Free(guess[i]));
        if letterIndex != -1 {
          states[i] := Present;
          wordArray[letterIndex] := Spent;
        } else {
          states[i] := Absent;
        }
      }
      assert states[..i + 1] == states[..i] + [states[i]];
    }
    assert states[..] == states[..WordLength];
    tileStates := states[..];
  }
}
