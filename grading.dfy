/**
 * Letter grading of one guess against the secret word (`SessionState::grade`
 * in src/main.rs), with Wordle duplicate-letter semantics.
 *
 * `Graded` is a closed-form reference: a position is Correct when the letters
 * agree there; otherwise it is WrongPlace when fewer earlier unmatched guess
 * positions hold the same letter than there are unmatched secret positions
 * holding it. `GradeWord` is the two-pass algorithm on Option buffers, proved
 * equal to `Graded`; the duplicate-letter cap and the other properties are
 * proved about `Graded`.
 */
module Grading {
  import opened Results

  /** Per-letter verdict; the source derives the order Incorrect < WrongPlace < Correct. */
  datatype Grade = Incorrect | WrongPlace | Correct

  datatype GradingError = WrongLength(expected: nat, actual: nat)

  /** Number of positions k < j where s holds c and other holds a different letter. */
  function Unmatched(s: string, other: string, c: char, j: nat): (n: nat)
    requires j <= |s| == |other|
  {
    if j == 0 then 0
    else Unmatched(s, other, c, j - 1) + (if s[j - 1] == c && other[j - 1] != c then 1 else 0)
  }

  /** Number of positions k < j where both s and other hold c. */
  function Matched(s: string, other: string, c: char, j: nat): (n: nat)
    requires j <= |s| == |other|
  {
    if j == 0 then 0
    else Matched(s, other, c, j - 1) + (if s[j - 1] == c && other[j - 1] == c then 1 else 0)
  }

  /** The grade of guess position i. */
  function GradeAt(secret: string, guess: string, i: nat): Grade
    requires |secret| == |guess| && i < |guess|
  {
    if guess[i] == secret[i] then Correct
    else if Unmatched(guess, secret, guess[i], i) < Unmatched(secret, guess, guess[i], |secret|) then WrongPlace
    else Incorrect
  }

  /** Reference result of grading `guess` against `secret`. */
  function Graded(secret: string, guess: string): (r: Result<seq<Grade>, GradingError>)
    ensures r.Err? <==> |secret| != |guess|
    ensures r.Err? ==> r.error == WrongLength(|secret|, |guess|)
    ensures r.Ok? ==> |r.value| == |secret|
    ensures r.Ok? ==> forall i {:trigger r.value[i]} :: 0 <= i < |secret| ==> (r.value[i] == Correct <==> guess[i] == secret[i])
  {
    if |secret| != |guess| then Err(WrongLength(|secret|, |guess|))
    else Ok(seq(|secret|, i requires 0 <= i < |secret| => GradeAt(secret, guess, i)))
  }

  /** Every grade is `Correct`: the guess solved the word. */
  predicate AllCorrect(grades: seq<Grade>): (b: bool)
    ensures b <==> Incorrect !in grades && WrongPlace !in grades
  {
    forall i :: 0 <= i < |grades| ==> grades[i] == Correct
  }

  /** Secret position k has been used up once the guess prefix [0, i) has been graded. */
  ghost predicate Consumed(secret: string, guess: string, k: nat, i: nat)
    requires k < |secret| == |guess| && i <= |guess|
  {
    secret[k] == guess[k] || Unmatched(secret, guess, secret[k], k) < Unmatched(guess, secret, secret[k], i)
  }

  lemma {:induction false} UnmatchedMonotone(s: string, other: string, c: char, a: nat, b: nat)
    requires a <= b <= |s| == |other|
    ensures Unmatched(s, other, c, a) <= Unmatched(s, other, c, b)
    decreases b
  {
    if a < b {
      UnmatchedMonotone(s, other, c, a, b - 1);
    }
  }

  /** Two distinct unmatched positions holding c have distinct ranks. */
  lemma RankStrict(s: string, other: string, c: char, k1: nat, k2: nat)
    requires k1 < k2 < |s| == |other|
    requires s[k1] == c && other[k1] != c
    ensures Unmatched(s, other, c, k1) < Unmatched(s, other, c, k2)
  {
    UnmatchedMonotone(s, other, c, k1 + 1, k2);
  }

  /** An unmatched position's rank is below the total number of unmatched positions. */
  lemma RankBelowTotal(s: string, other: string, c: char, k: nat)
    requires k < |s| == |other|
    requires s[k] == c && other[k] != c
    ensures Unmatched(s, other, c, k) < Unmatched(s, other, c, |s|)
  {
    UnmatchedMonotone(s, other, c, k + 1, |s|);
  }

  /** When every unmatched position of a prefix has rank below g, the prefix holds at most g of them. */
  lemma {:induction false} CountBound(s: string, other: string, c: char, j: nat, g: nat)
    requires j <= |s| == |other|
    requires forall k :: 0 <= k < j && s[k] == c && other[k] != c ==> Unmatched(s, other, c, k) < g
    ensures Unmatched(s, other, c, j) <= g
  {
    if j > 0 {
      CountBound(s, other, c, j - 1, g);
    }
  }

  /** The unconsumed secret letters once the guess prefix [0, i) has been graded. */
  ghost predicate ExpectedAfter(secret: string, guess: string, e: seq<Option<char>>, i: nat)
    requires |secret| == |guess| && i <= |guess|
  {
    |e| == |secret| &&
    forall k {:trigger e[k]} :: 0 <= k < |e| ==> e[k] == if Consumed(secret, guess, k, i) then None else Some(secret[k])
  }

  /** The grades once the guess prefix [0, i) has been through pass 2. */
  ghost predicate GradesAfter(secret: string, guess: string, r: seq<Grade>, i: nat)
    requires |secret| == |guess| && i <= |guess|
  {
    |r| == |secret| &&
    forall k {:trigger r[k]} :: 0 <= k < |r| ==> r[k] == if k < i then GradeAt(secret, guess, k) else if guess[k] == secret[k] then Correct else Incorrect
  }

  /** Recording the grade of position i extends the graded prefix by one. */
  lemma GradesStep(secret: string, guess: string, r: seq<Grade>, i: nat)
    requires |secret| == |guess| && i < |guess|
    requires GradesAfter(secret, guess, r, i)
    ensures GradesAfter(secret, guess, r[i := GradeAt(secret, guess, i)], i + 1)
  {
  }

  /** Pass 2 at an exactly matched position changes nothing. */
  lemma ExactStep(secret: string, guess: string, e: seq<Option<char>>, i: nat)
    requires |secret| == |guess| && i < |guess| && guess[i] == secret[i]
    requires ExpectedAfter(secret, guess, e, i)
    ensures ExpectedAfter(secret, guess, e, i + 1)
  {
  }

  /** Pass 2 found the first unconsumed secret position j holding the letter of guess position i. */
  lemma FoundStep(secret: string, guess: string, e: seq<Option<char>>, i: nat, j: nat)
    requires |secret| == |guess| && i < |guess| && guess[i] != secret[i]
    requires ExpectedAfter(secret, guess, e, i)
    requires j < |e| && e[j] == Some(guess[i])
    requires forall k :: 0 <= k < j ==> e[k] != Some(guess[i])
    ensures GradeAt(secret, guess, i) == WrongPlace
    ensures ExpectedAfter(secret, guess, e[j := None], i + 1)
  {
    var c, g := guess[i], Unmatched(guess, secret, guess[i], i);
    forall k | 0 <= k < j && secret[k] == c && guess[k] != c
      ensures Unmatched(secret, guess, c, k) < g
    {
      assert e[k] != Some(c);
    }
    CountBound(secret, guess, c, j, g);
    RankBelowTotal(secret, guess, c, j);
    forall k | 0 <= k < |secret| && secret[k] == c && guess[k] != c && k != j
      ensures Unmatched(secret, guess, c, k) != g
    {
      if k < j { RankStrict(secret, guess, c, k, j); } else { RankStrict(secret, guess, c, j, k); }
    }
  }

  /** Pass 2 found no unconsumed secret position holding the letter of guess position i. */
  lemma MissStep(secret: string, guess: string, e: seq<Option<char>>, i: nat)
    requires |secret| == |guess| && i < |guess| && guess[i] != secret[i]
    requires ExpectedAfter(secret, guess, e, i)
    requires forall k :: 0 <= k < |e| ==> e[k] != Some(guess[i])
    ensures GradeAt(secret, guess, i) == Incorrect
    ensures ExpectedAfter(secret, guess, e, i + 1)
  {
    var c, g := guess[i], Unmatched(guess, secret, guess[i], i);
    assert Unmatched(secret, guess, c, |secret|) <= g by {
      forall k | 0 <= k < |secret| && secret[k] == c && guess[k] != c
        ensures Unmatched(secret, guess, c, k) < g
      {
        assert e[k] != Some(c);
      }
      CountBound(secret, guess, c, |secret|, g);
    }
    forall k | 0 <= k < |secret|
      ensures Consumed(secret, guess, k, i + 1) == Consumed(secret, guess, k, i)
    {
      assert Unmatched(guess, secret, secret[k], i + 1) == Unmatched(guess, secret, secret[k], i) + (if secret[k] == c then 1 else 0);
      if secret[k] == c && guess[k] != c {
        assert e[k] != Some(c);
      }
    }
  }

  /**
   * The two-pass grader: pass 1 marks exact matches Correct and consumes them
   * on both sides; pass 2 walks the remaining guess positions left to right,
   * each consuming the first unconsumed equal secret position and becoming
   * WrongPlace.
   */
  method GradeWord(secret: string, guess: string) returns (r: Result<seq<Grade>, GradingError>)
    ensures r == Graded(secret, guess)
  {
    if |secret| != |guess| {
      return Err(WrongLength(|secret|, |guess|));
    }
    var n := |secret|;
    var word := new Option<char>[n](k => if 0 <= k < |guess| then Some(guess[k]) else None);
    var expected := new Option<char>[n](k => if 0 <= k < |secret| then Some(secret[k]) else None);
    var ret := new Grade[n](_ => Incorrect);

    for i := 0 to n
      invariant forall k {:trigger word[k]} :: 0 <= k < n ==> word[k] == if k < i && guess[k] == secret[k] then None else Some(guess[k])
      invariant forall k {:trigger expected[k]} :: 0 <= k < n ==> expected[k] == if k < i && guess[k] == secret[k] then None else Some(secret[k])
      invariant forall k {:trigger ret[k]} :: 0 <= k < n ==> ret[k] == if k < i && guess[k] == secret[k] then Correct else Incorrect
    {
      if word[i] == expected[i] {
        ret[i] := Correct;
        word[i] := None;
        expected[i] := None;
      }
    }
    assert ExpectedAfter(secret, guess, expected[..], 0);

    for i := 0 to n
      modifies expected, ret
      invariant forall k {:trigger word[k]} :: 0 <= k < n ==> word[k] == if guess[k] == secret[k] then None else Some(guess[k])
      invariant ExpectedAfter(secret, guess, expected[..], i)
      invariant GradesAfter(secret, guess, ret[..], i)
    {
      if word[i] == None {
        ExactStep(secret, guess, expected[..], i);
        GradesStep(secret, guess, ret[..], i);
        assert ret[..][i := GradeAt(secret, guess, i)] == ret[..];
        continue;
      }
      ghost var e0, r0 := expected[..], ret[..];
      var j := 0;
      while j < n
        modifies expected, ret
        invariant 0 <= j <= n
        invariant forall k :: 0 <= k < j ==> expected[k] != word[i]
        invariant expected[..] == e0 && ret[..] == r0
      {
        if word[i] == expected[j] {
          ret[i] := WrongPlace;
          expected[j] := None;
          FoundStep(secret, guess, e0, i, j);
          assert expected[..] == e0[j := None];
          break;
        }
        j := j + 1;
      }
      if j == n {
        MissStep(secret, guess, e0, i);
      }
      GradesStep(secret, guess, r0, i);
      assert ret[..] == r0[i := GradeAt(secret, guess, i)];
    }
    assert ret[..] == Graded(secret, guess).value;
    r := Ok(ret[..]);
  }

  function Min(a: nat, b: nat): nat
  {
    if a <= b then a else b
  }

  /** Number of guess positions k < j holding c whose grade credits the letter (Correct or WrongPlace). */
  function Credited(guess: string, grades: seq<Grade>, c: char, j: nat): nat
    requires j <= |guess| == |grades|
  {
    if j == 0 then 0
    else Credited(guess, grades, c, j - 1) + (if guess[j - 1] == c && grades[j - 1] != Incorrect then 1 else 0)
  }

  /** The occurrences of c in a prefix are the exactly matched ones plus the unmatched ones. */
  lemma {:induction false} OccurrencesSplit(s: string, other: string, c: char, j: nat)
    requires j <= |s| == |other|
    ensures multiset(s[..j])[c] == Matched(s, other, c, j) + Unmatched(s, other, c, j)
  {
    if j > 0 {
      OccurrencesSplit(s, other, c, j - 1);
      assert s[..j] == s[..j - 1] + [s[j - 1]];
    }
  }

  lemma {:induction false} MatchedSymmetric(s: string, other: string, c: char, j: nat)
    requires j <= |s| == |other|
    ensures Matched(s, other, c, j) == Matched(other, s, c, j)
  {
    if j > 0 {
      MatchedSymmetric(s, other, c, j - 1);
    }
  }

  /** On a guess prefix, the credited positions are the exact ones plus as many unmatched ones as the secret can pay for. */
  lemma {:induction false} CreditedPrefix(secret: string, guess: string, c: char, j: nat)
    requires |secret| == |guess| && j <= |guess|
    ensures Credited(guess, Graded(secret, guess).value, c, j)
         == Matched(guess, secret, c, j) + Min(Unmatched(guess, secret, c, j), Unmatched(secret, guess, c, |secret|))
  {
    if j > 0 {
      CreditedPrefix(secret, guess, c, j - 1);
      assert Graded(secret, guess).value[j - 1] == GradeAt(secret, guess, j - 1);
    }
  }

  /**
   * Duplicate-letter cap: for every letter c, the guess positions holding c
   * that are graded Correct or WrongPlace number exactly the smaller of c's
   * counts in the guess and in the secret.
   */
  lemma DuplicateCap(secret: string, guess: string, c: char)
    requires |secret| == |guess|
    ensures Credited(guess, Graded(secret, guess).value, c, |guess|) <= multiset(secret)[c]
    ensures Credited(guess, Graded(secret, guess).value, c, |guess|) == Min(multiset(guess)[c], multiset(secret)[c])
  {
    CreditedPrefix(secret, guess, c, |guess|);
    OccurrencesSplit(guess, secret, c, |guess|);
    OccurrencesSplit(secret, guess, c, |secret|);
    MatchedSymmetric(guess, secret, c, |guess|);
    assert guess[..|guess|] == guess && secret[..|secret|] == secret;
  }

  /** A guess is graded all Correct exactly when it is the secret word itself. */
  lemma SolvedIffEqual(secret: string, guess: string)
    ensures (Graded(secret, guess).Ok? && AllCorrect(Graded(secret, guess).value)) <==> guess == secret
  {
    if Graded(secret, guess).Ok? && AllCorrect(Graded(secret, guess).value) {
      forall i | 0 <= i < |secret|
        ensures guess[i] == secret[i]
      {
        assert Graded(secret, guess).value[i] == Correct;
      }
    }
  }

  /** Grading a word against itself yields one Correct per letter. */
  lemma GradeSelf(word: string)
    ensures Graded(word, word) == Ok(seq(|word|, _ => Correct))
  {
    assert Graded(word, word).value == seq(|word|, _ => Correct);
  }

  /** Ties among duplicate letters go to the earliest unconsumed secret position. */
  lemma DuplicateExamples()
    ensures Graded("abb", "bab") == Ok([WrongPlace, WrongPlace, Correct])
    ensures Graded("deed", "eedd") == Ok([WrongPlace, Correct, WrongPlace, Correct])
  {
    // "abb" keeps one unmatched 'b' (position 1) and one unmatched 'a' (position 0)
    assert Unmatched("abb", "bab", 'b', 3) == 1 by {
      assert Unmatched("abb", "bab", 'b', 1) == 0;
      assert Unmatched("abb", "bab", 'b', 2) == 1;
    }
    assert Unmatched("abb", "bab", 'a', 3) == 1 by {
      assert Unmatched("abb", "bab", 'a', 1) == 1;
      assert Unmatched("abb", "bab", 'a', 2) == 1;
    }
    assert Unmatched("bab", "abb", 'a', 1) == 0;
    // "deed" keeps its two 'e's and no 'd'; guess "eedd" offers 'e' at 0 and 'd' at 2
    assert Unmatched("deed", "eedd", 'e', 4) == 1 by {
      assert Unmatched("deed", "eedd", 'e', 1) == 0;
      assert Unmatched("deed", "eedd", 'e', 2) == 0;
      assert Unmatched("deed", "eedd", 'e', 3) == 1;
    }
    assert Unmatched("deed", "eedd", 'd', 4) == 1 by {
      assert Unmatched("deed", "eedd", 'd', 1) == 1;
      assert Unmatched("deed", "eedd", 'd', 2) == 1;
      assert Unmatched("deed", "eedd", 'd', 3) == 1;
    }
    assert Unmatched("eedd", "deed", 'd', 2) == 0 by {
      assert Unmatched("eedd", "deed", 'd', 1) == 0;
    }
    assert Graded("abb", "bab").value == [WrongPlace, WrongPlace, Correct];
    assert Graded("deed", "eedd").value == [WrongPlace, Correct, WrongPlace, Correct];
  }
}
