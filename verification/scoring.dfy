/** The scoring rule of the game: the hint a guess earns at each position of the answer.
    `Hints` is the reference definition; `Engine.Logic.CompareWord` computes it with the
    two counting passes of the game and is proved equal to it. */
module Scoring {

  /** Hint codes (logic.py). */
  const CORRECT: int := 1
  const PRESENT: int := 2
  const ABSENT: int := 3

  predicate IsHintCode(h: int) {
    h == CORRECT || h == PRESENT || h == ABSENT
  }

  function Min(x: int, y: int): int { if x <= y then x else y }

  /** Number of positions j < n with s[j] == c. */
  function Occ(s: string, n: nat, c: char): (k: nat)
    requires n <= |s|
    ensures k <= n
  {
    if n == 0 then 0 else Occ(s, n - 1, c) + (if s[n - 1] == c then 1 else 0)
  }

  /** Number of positions j < n where guess g and answer a both hold the letter c. */
  function Exact(g: string, a: string, n: nat, c: char): (k: nat)
    requires n <= |g| <= |a|
    ensures k <= n
  {
    if n == 0 then 0 else Exact(g, a, n - 1, c) + (if g[n - 1] == c && a[n - 1] == c then 1 else 0)
  }

  /** Number of positions j < n where the guess holds c but the answer does not. */
  function Misplaced(g: string, a: string, n: nat, c: char): (k: nat)
    requires n <= |g| <= |a|
    ensures k <= n
  {
    if n == 0 then 0 else Misplaced(g, a, n - 1, c) + (if g[n - 1] == c && a[n - 1] != c then 1 else 0)
  }

  /** Occurrences of c in the answer left over once every exact match of c is paid for. */
  function Budget(g: string, a: string, c: char): int
    requires |g| <= |a|
  {
    Occ(a, |a|, c) - Exact(g, a, |g|, c)
  }

  /** The hint at position i: exact matches are CORRECT; a misplaced letter is PRESENT when
      fewer than Budget misplaced copies of it stand to its left; everything else is ABSENT. */
  function HintAt(g: string, a: string, i: nat): int
    requires |g| <= |a| && i < |a|
  {
    if i >= |g| then ABSENT
    else if g[i] == a[i] then CORRECT
    else if Misplaced(g, a, i, g[i]) < Budget(g, a, g[i]) then PRESENT
    else ABSENT
  }

  /** The hint vector of guess g against answer a: one code per letter of the answer. */
  function Hints(g: string, a: string): (r: seq<int>)
    requires |g| <= |a|
    ensures |r| == |a|
    ensures forall i :: 0 <= i < |r| ==> IsHintCode(r[i])
    ensures forall i :: 0 <= i < |r| ==> (r[i] == CORRECT <==> i < |g| && g[i] == a[i])
  {
    seq(|a|, i requires 0 <= i < |a| => HintAt(g, a, i))
  }

  /** Number of positions j < n where the guess holds c and the hint reports the letter as found. */
  function Found(g: string, h: seq<int>, n: nat, c: char): nat
    requires n <= |g| && n <= |h|
  {
    if n == 0 then 0
    else Found(g, h, n - 1, c) + (if g[n - 1] == c && (h[n - 1] == CORRECT || h[n - 1] == PRESENT) then 1 else 0)
  }

  /** Python's Counter lookup: a letter never counted reads as zero. */
  function CounterGet(counter: map<char, int>, c: char): int {
    if c in counter then counter[c] else 0
  }

  /** Python's `counter[x] += d` on a Counter: only the count of x moves, by d. */
  function CounterAdd(counter: map<char, int>, x: char, d: int): (r: map<char, int>)
    ensures forall c :: CounterGet(r, c) == CounterGet(counter, c) + (if c == x then d else 0)
  {
    counter[x := CounterGet(counter, x) + d]
  }

  /** Python's Counter(s): each character of s mapped to its number of occurrences. */
  function Counter(s: string): (r: map<char, int>)
    ensures forall c :: CounterGet(r, c) == Occ(s, |s|, c)
  {
    CountFirst(s, |s|)
  }

  /** The Counter of the first n characters of s. */
  function CountFirst(s: string, n: nat): (r: map<char, int>)
    requires n <= |s|
    ensures forall c :: CounterGet(r, c) == Occ(s, n, c)
  {
    if n == 0 then map[] else CounterAdd(CountFirst(s, n - 1), s[n - 1], 1)
  }

  /** The working state of the scoring loops: the hint list and the letter counter. */
  datatype Tally = Tally(hints: seq<int>, counter: map<char, int>)

  /** The state once the exact-match pass has visited positions < i. */
  function FirstPass(g: string, a: string, i: nat): (t: Tally)
    requires i <= |g| <= |a|
    ensures |t.hints| == |a|
  {
    if i == 0 then Tally(seq(|a|, _ => ABSENT), Counter(a))
    else
      var t := FirstPass(g, a, i - 1);
      if g[i - 1] == a[i - 1] then Tally(t.hints[i - 1 := CORRECT], CounterAdd(t.counter, g[i - 1], -1))
      else t
  }

  /** The state once the second pass has visited positions < i. */
  function SecondPass(g: string, a: string, i: nat): (t: Tally)
    requires i <= |g| <= |a|
    ensures |t.hints| == |a|
  {
    if i == 0 then FirstPass(g, a, |g|)
    else
      var t := SecondPass(g, a, i - 1);
      if t.hints[i - 1] != CORRECT && CounterGet(t.counter, g[i - 1]) > 0 then
        Tally(t.hints[i - 1 := PRESENT], CounterAdd(t.counter, g[i - 1], -1))
      else t
  }

  /** After the first pass over positions < i, exactly the exact matches among them are
      CORRECT and each letter's count is reduced by its exact matches. */
  lemma {:induction false} FirstPassState(g: string, a: string, i: nat)
    requires i <= |g| <= |a|
    ensures forall k :: 0 <= k < |a| ==>
      FirstPass(g, a, i).hints[k] == if k < i && g[k] == a[k] then CORRECT else ABSENT
    ensures forall c :: CounterGet(FirstPass(g, a, i).counter, c) == Occ(a, |a|, c) - Exact(g, a, i, c)
  {
    if i > 0 {
      FirstPassState(g, a, i - 1);
    }
  }

  /** During the second pass each letter's count is its budget less the misplaced copies
      already marked PRESENT. */
  lemma {:induction false} SecondPassCounter(g: string, a: string, i: nat)
    requires i <= |g| <= |a|
    ensures forall c ::
      CounterGet(SecondPass(g, a, i).counter, c) == Budget(g, a, c) - Min(Misplaced(g, a, i, c), Budget(g, a, c))
  {
    if i == 0 {
      FirstPassState(g, a, |g|);
      forall c
        ensures CounterGet(SecondPass(g, a, 0).counter, c) == Budget(g, a, c) - Min(0, Budget(g, a, c))
      {
        BudgetNonNegative(g, a, c);
      }
    } else {
      SecondPassCounter(g, a, i - 1);
      SecondPassTail(g, a, i - 1);
      FirstPassState(g, a, |g|);
    }
  }

  /** The letter counter of compare_word never goes negative. */
  lemma CounterNeverNegative(g: string, a: string, i: nat, c: char)
    requires i <= |g| <= |a|
    ensures CounterGet(FirstPass(g, a, i).counter, c) >= 0
    ensures CounterGet(SecondPass(g, a, i).counter, c) >= 0
  {
    FirstPassState(g, a, i);
    ExactBelowOcc(g, a, i, c);
    OccMonotone(a, i, |a|, c);
    SecondPassCounter(g, a, i);
    BudgetNonNegative(g, a, c);
  }

  /** The second pass leaves the positions it has not reached as the first pass left them. */
  lemma {:induction false} SecondPassTail(g: string, a: string, i: nat)
    requires i <= |g| <= |a|
    ensures forall k :: i <= k < |a| ==> SecondPass(g, a, i).hints[k] == FirstPass(g, a, |g|).hints[k]
  {
    if i > 0 {
      SecondPassTail(g, a, i - 1);
    }
  }

  /** After the second pass over positions < i, those positions hold their final hints. */
  lemma {:induction false} SecondPassHints(g: string, a: string, i: nat)
    requires i <= |g| <= |a|
    ensures forall k :: 0 <= k < i ==> SecondPass(g, a, i).hints[k] == HintAt(g, a, k)
  {
    if i > 0 {
      SecondPassHints(g, a, i - 1);
      SecondPassCounter(g, a, i - 1);
      SecondPassTail(g, a, i - 1);
      FirstPassState(g, a, |g|);
    }
  }

  /** The two passes of compare_word produce the reference hint vector. */
  lemma SecondPassComputesHints(g: string, a: string)
    requires |g| <= |a|
    ensures SecondPass(g, a, |g|).hints == Hints(g, a)
  {
    SecondPassHints(g, a, |g|);
    SecondPassTail(g, a, |g|);
    FirstPassState(g, a, |g|);
  }

  lemma {:induction false} OccMonotone(s: string, m: nat, n: nat, c: char)
    requires m <= n <= |s|
    ensures Occ(s, m, c) <= Occ(s, n, c)
  {
    if m < n {
      OccMonotone(s, m, n - 1, c);
    }
  }

  lemma {:induction false} ExactBelowOcc(g: string, a: string, n: nat, c: char)
    requires n <= |g| <= |a|
    ensures Exact(g, a, n, c) <= Occ(a, n, c)
  {
    if n > 0 {
      ExactBelowOcc(g, a, n - 1, c);
    }
  }

  /** Exact matches never use up more copies of a letter than the answer holds. */
  lemma BudgetNonNegative(g: string, a: string, c: char)
    requires |g| <= |a|
    ensures Budget(g, a, c) >= 0
  {
    ExactBelowOcc(g, a, |g|, c);
    OccMonotone(a, |g|, |a|, c);
  }

  /** Every occurrence of c in the guess is either an exact match or misplaced. */
  lemma {:induction false} ExactPlusMisplaced(g: string, a: string, n: nat, c: char)
    requires n <= |g| <= |a|
    ensures Exact(g, a, n, c) + Misplaced(g, a, n, c) == Occ(g, n, c)
  {
    if n > 0 {
      ExactPlusMisplaced(g, a, n - 1, c);
    }
  }

  /** A hint vector that reports position j found exactly when it is an exact match or a
      misplaced copy still within the budget (as Hints does). */
  ghost predicate FoundRule(g: string, a: string, h: seq<int>)
    requires |g| <= |a|
  {
    |g| <= |h| &&
    forall j :: 0 <= j < |g| ==>
      ((h[j] == CORRECT || h[j] == PRESENT) <==> (g[j] == a[j] || Misplaced(g, a, j, g[j]) < Budget(g, a, g[j])))
  }

  lemma HintsFoundRule(g: string, a: string)
    requires |g| <= |a|
    ensures FoundRule(g, a, Hints(g, a))
  {
    forall j | 0 <= j < |g|
      ensures (Hints(g, a)[j] == CORRECT || Hints(g, a)[j] == PRESENT) <==>
              (g[j] == a[j] || Misplaced(g, a, j, g[j]) < Budget(g, a, g[j]))
    {
      assert Hints(g, a)[j] == HintAt(g, a, j);
    }
  }

  /** Among the first n positions, the copies of c reported found are the exact matches plus
      the misplaced copies, the latter capped at the budget. */
  lemma {:induction false} FoundPrefix(g: string, a: string, h: seq<int>, n: nat, c: char)
    requires n <= |g| <= |a| && FoundRule(g, a, h)
    ensures Found(g, h, n, c) == Exact(g, a, n, c) + Min(Misplaced(g, a, n, c), Budget(g, a, c))
  {
    if n == 0 {
      BudgetNonNegative(g, a, c);
    } else {
      var j := n - 1;
      FoundPrefix(g, a, h, j, c);
      assert (h[j] == CORRECT || h[j] == PRESENT) <==> (g[j] == a[j] || Misplaced(g, a, j, g[j]) < Budget(g, a, g[j]));
    }
  }

  /** The letter budget: for every letter, the guess positions holding it that are marked
      CORRECT or PRESENT number exactly min(copies in the guess, copies in the answer). */
  lemma LetterBudget(g: string, a: string, c: char)
    requires |g| <= |a|
    ensures Found(g, Hints(g, a), |g|, c) == Min(Occ(g, |g|, c), Occ(a, |a|, c))
  {
    HintsFoundRule(g, a);
    FoundPrefix(g, a, Hints(g, a), |g|, c);
    ExactPlusMisplaced(g, a, |g|, c);
  }

  lemma {:induction false} OccPositive(s: string, n: nat, c: char)
    requires n <= |s|
    ensures Occ(s, n, c) > 0 <==> exists j :: 0 <= j < n && s[j] == c
  {
    if n > 0 {
      OccPositive(s, n - 1, c);
    }
  }

  lemma {:induction false} MisplacedNone(g: string, a: string, n: nat, c: char)
    requires n <= |g| <= |a|
    requires forall j :: 0 <= j < n ==> g[j] != c
    ensures Misplaced(g, a, n, c) == 0 && Exact(g, a, n, c) == 0
  {
    if n > 0 {
      MisplacedNone(g, a, n - 1, c);
    }
  }

  /** Exact(...) ignores a position whose letters differ. */
  lemma {:induction false} ExactOnlyAt(g: string, a: string, n: nat, c: char, i: nat)
    requires n <= |g| <= |a| && i < |g|
    requires g[i] == c && a[i] != c
    requires forall j :: 0 <= j < n && j != i ==> g[j] != c
    ensures Exact(g, a, n, c) == 0
  {
    if n > 0 {
      ExactOnlyAt(g, a, n - 1, c, i);
    }
  }

  /** For a guess without repeated letters, the hints are the textbook ones: CORRECT on an exact
      match, else PRESENT when the letter occurs anywhere in the answer, else ABSENT. */
  lemma DistinctGuessHints(g: string, a: string, i: nat)
    requires |g| <= |a| && i < |g|
    requires forall j, k :: 0 <= j < k < |g| ==> g[j] != g[k]
    ensures Hints(g, a)[i] == if g[i] == a[i] then CORRECT else if g[i] in a then PRESENT else ABSENT
  {
    var c := g[i];
    if c != a[i] {
      MisplacedNone(g, a, i, c);
      ExactOnlyAt(g, a, |g|, c, i);
      OccPositive(a, |a|, c);
      assert Hints(g, a)[i] == HintAt(g, a, i);
    }
  }

  /** A guess of the answer's length scores all CORRECT exactly when it is the answer. */
  lemma AllCorrectIffAnswer(g: string, a: string)
    requires |g| == |a|
    ensures (forall i :: 0 <= i < |a| ==> Hints(g, a)[i] == CORRECT) <==> g == a
  {
    if forall i :: 0 <= i < |a| ==> Hints(g, a)[i] == CORRECT {
      forall i | 0 <= i < |a|
        ensures g[i] == a[i]
      {
        assert Hints(g, a)[i] == CORRECT;
      }
    }
  }

  /** Duplicate letters: answer SPEED, guess ERASE. No position matches, the answer's two E's
      pay for both E's of the guess, and its one S pays for the S. */
  lemma SpeedErase()
    ensures Hints("ERASE", "SPEED") == [PRESENT, ABSENT, ABSENT, PRESENT, PRESENT]
  {
    assert Occ("SPEED", 5, 'E') == 2 && Exact("ERASE", "SPEED", 5, 'E') == 0;
    assert Occ("SPEED", 5, 'S') == 1 && Exact("ERASE", "SPEED", 5, 'S') == 0;
    assert Occ("SPEED", 5, 'R') == 0 && Occ("SPEED", 5, 'A') == 0;
    assert Misplaced("ERASE", "SPEED", 4, 'E') == 1;
  }

  /** Exact matches take priority over earlier copies: answer CRANE, guess EERIE. The final E
      is exact and uses the answer's only E, so both earlier E's are ABSENT. */
  lemma CraneEerie()
    ensures Hints("EERIE", "CRANE") == [ABSENT, ABSENT, PRESENT, ABSENT, CORRECT]
  {
    assert Occ("CRANE", 5, 'E') == 1 && Exact("EERIE", "CRANE", 5, 'E') == 1;
    assert Occ("CRANE", 5, 'R') == 1 && Exact("EERIE", "CRANE", 5, 'R') == 0;
    assert Occ("CRANE", 5, 'I') == 0;
  }

  /** Left-to-right consumption: answer ABBEY, guess BOBBY. Position 2 is an exact B, leaving one
      B for the misplaced ones; the first (position 0) takes it and position 3 is ABSENT. */
  lemma AbbeyBobby()
    ensures Hints("BOBBY", "ABBEY") == [PRESENT, ABSENT, CORRECT, ABSENT, CORRECT]
  {
    assert Occ("ABBEY", 5, 'B') == 2 && Exact("BOBBY", "ABBEY", 5, 'B') == 1;
    assert Occ("ABBEY", 5, 'O') == 0;
    assert Misplaced("BOBBY", "ABBEY", 3, 'B') == 1;
  }
}
