/** The guess engine of logic.py: the hidden answer, the word list, the letters typed so far
    and the history of accepted guesses with their hints. */
module Engine {
  import opened Scoring

  /** ASCII letters; Python's str.isalpha on a single ASCII character. */
  predicate IsAlpha(c: char) {
    'a' <= c <= 'z' || 'A' <= c <= 'Z'
  }

  predicate IsUpperLetter(c: char) { 'A' <= c <= 'Z' }

  predicate IsLowerLetter(c: char) { 'a' <= c <= 'z' }

  /** str.upper on one ASCII character. */
  function UpperChar(c: char): char {
    if IsLowerLetter(c) then (c as int - 32) as char else c
  }

  /** str.lower on one ASCII character. */
  function LowerChar(c: char): char {
    if IsUpperLetter(c) then (c as int + 32) as char else c
  }

  function Upper(s: string): string {
    seq(|s|, i requires 0 <= i < |s| => UpperChar(s[i]))
  }

  function Lower(s: string): string {
    seq(|s|, i requires 0 <= i < |s| => LowerChar(s[i]))
  }

  /** A word list entry written in lower case (the format of the word list) comes back from
      upper-casing and lower-casing unchanged, so the answer's own letters pass the
      dictionary test of submit_guess. */
  lemma LowerUpper(w: string)
    requires forall i :: 0 <= i < |w| ==> !IsUpperLetter(w[i])
    ensures Lower(Upper(w)) == w
  {
    forall i | 0 <= i < |w|
      ensures Lower(Upper(w))[i] == w[i]
    {
      assert Upper(w)[i] == UpperChar(w[i]);
    }
  }

  /** When the chosen entry of the word list is written without capitals, the answer made
      from it passes both tests of submit_guess: it has the answer's length and, lower-cased,
      it is in the word list. */
  lemma AnswerListed(words: seq<string>, choice: nat)
    requires choice < |words|
    requires forall i :: 0 <= i < |words[choice]| ==> !IsUpperLetter(words[choice][i])
    ensures |Upper(words[choice])| == |words[choice]|
    ensures Lower(Upper(words[choice])) in words
  {
    LowerUpper(words[choice]);
  }

  /** str.isalpha: a non-empty string of letters. */
  predicate IsAlphaString(s: string) {
    |s| > 0 && forall i :: 0 <= i < |s| ==> IsAlpha(s[i])
  }

  /** The buffer after get_letter(letter) with room for `limit` letters: the whole argument is
      appended, upper-cased, when it consists of letters and the buffer is not yet full. */
  function AfterGetLetter(buffer: string, limit: nat, letter: string): (r: string)
    ensures r != buffer <==> IsAlphaString(letter) && |buffer| < limit
    ensures |buffer| <= |r|
    ensures r != buffer ==> r[..|buffer|] == buffer && Lower(r[|buffer|..]) == Lower(letter)
    ensures r != buffer ==> forall i :: |buffer| <= i < |r| ==> IsUpperLetter(r[i])
    ensures |letter| == 1 && |buffer| <= limit ==> |r| <= limit
  {
    if !IsAlphaString(letter) then buffer
    else if |buffer| < limit then buffer + Upper(letter)
    else buffer
  }

  /** The buffer after remove_letter(). */
  function AfterRemoveLetter(buffer: string): (r: string)
    ensures |buffer| == 0 ==> r == buffer
    ensures |buffer| > 0 ==> r + [buffer[|buffer| - 1]] == buffer
  {
    if |buffer| > 0 then buffer[..|buffer| - 1] else buffer
  }

  /** One accepted guess: the word as typed (upper case) and its hint vector. */
  datatype Entry = Entry(word: string, hints: seq<int>)

  /** The entry's word has the answer's length and carries the hints it scores. */
  ghost predicate ScoredEntry(e: Entry, answer: string) {
    |e.word| == |answer| && e.hints == Hints(e.word, answer)
  }

  /** Every entry is a word of the answer's length paired with the hints it scores. */
  ghost predicate Scored(history: seq<Entry>, answer: string) {
    forall k {:trigger ScoredEntry(history[k], answer)} :: 0 <= k < |history| ==> ScoredEntry(history[k], answer)
  }

  /** The entry's word, lower-cased, is in the word list. */
  ghost predicate Listed(e: Entry, words: seq<string>) {
    Lower(e.word) in words
  }

  class Logic {
    const wordList: seq<string>
    const answer: string
    const maxGuesses: int
    var currentGuess: string
    var history: seq<Entry>

    /** The buffer holds upper-case letters; every history entry is a word of the answer's
        length found in the word list, paired with its hints. */
    ghost predicate Valid()
      reads this
    {
      maxGuesses == 6 &&
      (forall i :: 0 <= i < |currentGuess| ==> IsUpperLetter(currentGuess[i])) &&
      Scored(history, answer) &&
      forall k {:trigger Listed(history[k], wordList)} :: 0 <= k < |history| ==> Listed(history[k], wordList)
    }

    /** A round over `words` whose answer is entry `choice`, upper-cased. The source draws
        `choice` at random and loads `words` from a file. */
    constructor (words: seq<string>, choice: nat)
      requires choice < |words|
      ensures Valid()
      ensures wordList == words && answer == Upper(words[choice])
      ensures currentGuess == "" && history == []
    {
      wordList := words;
      answer := Upper(words[choice]);
      maxGuesses := 6;
      currentGuess := "";
      history := [];
    }

    function GetCurrentWord(): (w: string)
      reads this
      requires Valid()
      ensures forall i :: 0 <= i < |w| ==> IsUpperLetter(w[i])
    {
      currentGuess
    }

    function GetRemainingGuess(): (n: int)
      reads this
      requires Valid()
      ensures n <= GetMaxGuess()
      ensures n == GetMaxGuess() <==> history == []
    {
      maxGuesses - |history|
    }

    function GetMaxGuess(): (n: int)
      reads this
      requires Valid()
      ensures n == 6
    {
      maxGuesses
    }

    function GetAnsLength(): (n: nat)
      reads this
      requires Valid()
      ensures forall k :: 0 <= k < |history| ==> |history[k].word| == n
    {
      assert forall k :: 0 <= k < |history| ==> ScoredEntry(history[k], answer);
      |answer|
    }

    /** Appends the upper-cased letters while the buffer is shorter than the answer;
        anything but letters is ignored. */
    method GetLetter(letter: string)
      requires Valid()
      modifies this
      ensures Valid()
      ensures currentGuess == AfterGetLetter(old(currentGuess), |answer|, letter)
      ensures history == old(history)
    {
      if !IsAlphaString(letter) {
        return;
      }
      if |currentGuess| < |answer| {
        currentGuess := currentGuess + Upper(letter);
      }
    }

    /** Drops the last letter of a non-empty buffer. */
    method RemoveLetter()
      requires Valid()
      modifies this
      ensures Valid()
      ensures currentGuess == AfterRemoveLetter(old(currentGuess))
      ensures history == old(history)
    {
      if |currentGuess| > 0 {
        currentGuess := currentGuess[..|currentGuess| - 1];
      }
    }

    /** Scores the buffer against the answer with a letter-count budget: a first pass marks
        exact matches and spends their letters, a second pass marks a misplaced letter PRESENT
        while copies of it remain. */
    method CompareWord() returns (hints: seq<int>)
      requires |currentGuess| <= |answer|
      ensures hints == Hints(currentGuess, answer)
    {
      hints := seq(|answer|, _ => ABSENT);
      var guess := currentGuess;
      var ans := answer;
      var counter := Counter(ans);
      for i := 0 to |guess|
        invariant Tally(hints, counter) == FirstPass(guess, ans, i)
      {
        if guess[i] == ans[i] {
          hints := hints[i := CORRECT];
          counter := CounterAdd(counter, guess[i], -1);
        }
      }
      for i := 0 to |guess|
        invariant Tally(hints, counter) == SecondPass(guess, ans, i)
      {
        if hints[i] != CORRECT {
          if CounterGet(counter, guess[i]) > 0 {
            hints := hints[i := PRESENT];
            counter := CounterAdd(counter, guess[i], -1);
          }
        }
      }
      SecondPassComputesHints(guess, ans);
    }

    /** Rejects a buffer of the wrong length or missing from the word list, leaving everything
        as it was; otherwise scores it, records it in the history and clears the buffer. */
    method SubmitGuess() returns (hints: seq<int>, win: bool, submitted: bool)
      requires Valid()
      modifies this
      ensures Valid()
      ensures submitted <==> |old(currentGuess)| == |answer| && Lower(old(currentGuess)) in wordList
      ensures !submitted ==>
        hints == [] && !win && currentGuess == old(currentGuess) && history == old(history)
      ensures submitted ==>
        hints == Hints(old(currentGuess), answer) &&
        (win <==> old(currentGuess) == answer) &&
        history == old(history) + [Entry(old(currentGuess), hints)] &&
        currentGuess == "" &&
        GetRemainingGuess() == old(GetRemainingGuess()) - 1
    {
      if |currentGuess| != |answer| || Lower(currentGuess) !in wordList {
        return [], false, false;
      }
      hints := CompareWord();
      win := false;
      if forall i :: 0 <= i < |hints| ==> hints[i] == CORRECT {
        win := true;
      }
      AllCorrectIffAnswer(currentGuess, answer);
      history := history + [Entry(currentGuess, hints)];
      currentGuess := "";
      return hints, win, true;
    }
  }
}
