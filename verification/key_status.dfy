/** The colour of each on-screen key, as submit_answer updates it after every accepted guess:
    a key only ever moves up the order default < GREY < YELLOW < GREEN. */
module KeyStatus {
  import opened Scoring
  import opened Board
  import opened Keyboard
  import opened Engine

  datatype Option<T> = None | Some(value: T)

  /** key_statuses.get(letter): None for a letter without an entry. */
  function Lookup(m: map<char, Color>, c: char): Option<Color> {
    if c in m then Some(m[c]) else None
  }

  /** The rank of a letter's current key colour; a letter without an entry ranks as the default. */
  function StatusRank(m: map<char, Color>, c: char): nat {
    if c in m then Rank(m[c]) else 0
  }

  /** One step of the colour merge: `letter` was scored `hint`. A green key is left alone, a
      green hint always wins, a yellow hint wins over anything but green and a grey hint only
      over the default colour or no entry; an unknown hint code changes nothing. */
  function MergeHint(m: map<char, Color>, letter: char, hint: int): map<char, Color> {
    var color := HintColor(hint);
    var current := Lookup(m, letter);
    if current == Some(Green) then m
    else if color == Green then m[letter := color]
    else if color == Yellow && current != Some(Green) then m[letter := color]
    else if color == Grey && current != Some(Green) && current != Some(Yellow) then m[letter := color]
    else m
  }

  /** The key colours after merging the first n (letter, hint) pairs of one guess. */
  function MergeGuess(m: map<char, Color>, w: string, hs: seq<int>, n: nat): map<char, Color>
    requires n <= |w| && n <= |hs|
  {
    if n == 0 then m else MergeHint(MergeGuess(m, w, hs, n - 1), w[n - 1], hs[n - 1])
  }

  /** The key colours after merging every guess of `history`, in order, pairing letters with
      hints as zip does (up to the shorter of the two). */
  function StatusesAfter(m: map<char, Color>, history: seq<Entry>): map<char, Color>
    decreases |history|
  {
    if |history| == 0 then m
    else
      var e := history[|history| - 1];
      MergeGuess(StatusesAfter(m, history[..|history| - 1]), e.word, e.hints, Min(|e.word|, |e.hints|))
  }

  /** The merge rule of one (letter, hint) pair: other letters keep their colour; a valid hint
      leaves the letter at the better of its old colour and the hint's colour; an unknown code
      and a green key leave the map as it was. */
  lemma MergeHintRule(m: map<char, Color>, letter: char, hint: int)
    ensures forall c :: c != letter ==> Lookup(MergeHint(m, letter, hint), c) == Lookup(m, c)
    ensures IsHintCode(hint) ==>
      letter in MergeHint(m, letter, hint) &&
      Rank(MergeHint(m, letter, hint)[letter]) == Max(StatusRank(m, letter), Rank(HintColor(hint)))
    ensures !IsHintCode(hint) ==> MergeHint(m, letter, hint) == m
    ensures Lookup(m, letter) == Some(Green) ==> MergeHint(m, letter, hint) == m
  {
  }

  /** Merging a guess keeps every key of the map and only touches the letters of the guess. */
  lemma {:induction false} MergeGuessFrame(m: map<char, Color>, w: string, hs: seq<int>, n: nat)
    requires n <= |w| && n <= |hs|
    ensures forall c :: c in m ==> c in MergeGuess(m, w, hs, n)
    ensures forall c :: c !in w[..n] ==> Lookup(MergeGuess(m, w, hs, n), c) == Lookup(m, c)
  {
    if n > 0 {
      MergeGuessFrame(m, w, hs, n - 1);
      MergeHintRule(MergeGuess(m, w, hs, n - 1), w[n - 1], hs[n - 1]);
      assert w[..n] == w[..n - 1] + [w[n - 1]];
    }
  }

  /** Merging a whole history keeps every key of the starting map. */
  lemma {:induction false} StatusesAfterKeys(m: map<char, Color>, history: seq<Entry>)
    ensures forall c :: c in m ==> c in StatusesAfter(m, history)
    decreases |history|
  {
    if |history| > 0 {
      var e := history[|history| - 1];
      StatusesAfterKeys(m, history[..|history| - 1]);
      MergeGuessFrame(StatusesAfter(m, history[..|history| - 1]), e.word, e.hints, Min(|e.word|, |e.hints|));
    }
  }

  /** The best rank that the first n letters of one guess earned for c. */
  function GuessRank(w: string, hs: seq<int>, n: nat, c: char): nat
    requires n <= |w| && n <= |hs|
  {
    if n == 0 then 0
    else Max(GuessRank(w, hs, n - 1, c), if w[n - 1] == c then Rank(HintColor(hs[n - 1])) else 0)
  }

  /** The best rank that any guess of `history` earned for c. */
  function HistoryRank(history: seq<Entry>, c: char): nat
    decreases |history|
  {
    if |history| == 0 then 0
    else
      var e := history[|history| - 1];
      Max(HistoryRank(history[..|history| - 1], c), GuessRank(e.word, e.hints, Min(|e.word|, |e.hints|), c))
  }

  ghost predicate HintCodes(history: seq<Entry>) {
    forall k, j :: 0 <= k < |history| && 0 <= j < |history[k].hints| ==> IsHintCode(history[k].hints[j])
  }

  /** Some guess of `history` holds c at a position where the answer holds c too. */
  ghost predicate Placed(history: seq<Entry>, answer: string, c: char) {
    exists k, j :: 0 <= k < |history| && 0 <= j < |history[k].word| && j < |answer| &&
      history[k].word[j] == c && answer[j] == c
  }

  /** Some guess of `history` contains c. */
  ghost predicate Guessed(history: seq<Entry>, c: char) {
    exists k :: 0 <= k < |history| && c in history[k].word
  }

  /** Merging one guess leaves every key at the better of its old colour and the best colour
      the guess earned for that letter. */
  lemma {:induction false} MergeGuessRank(m: map<char, Color>, w: string, hs: seq<int>, n: nat, c: char)
    requires n <= |w| && n <= |hs|
    requires forall j :: 0 <= j < n ==> IsHintCode(hs[j])
    ensures StatusRank(MergeGuess(m, w, hs, n), c) == Max(StatusRank(m, c), GuessRank(w, hs, n, c))
  {
    if n > 0 {
      MergeGuessRank(m, w, hs, n - 1, c);
      var before := MergeGuess(m, w, hs, n - 1);
      var after := MergeHint(before, w[n - 1], hs[n - 1]);
      MergeHintRule(before, w[n - 1], hs[n - 1]);
      if w[n - 1] != c {
        assert Lookup(after, c) == Lookup(before, c);
      }
    }
  }

  /** After a whole history every key sits at the better of its starting colour and the best
      colour any guess earned for that letter. */
  lemma {:induction false} StatusesAfterRank(m: map<char, Color>, history: seq<Entry>, c: char)
    requires HintCodes(history)
    ensures StatusRank(StatusesAfter(m, history), c) == Max(StatusRank(m, c), HistoryRank(history, c))
    decreases |history|
  {
    if |history| > 0 {
      var prefix := history[..|history| - 1];
      var e := history[|history| - 1];
      assert HintCodes(prefix) by {
        forall k, j | 0 <= k < |prefix| && 0 <= j < |prefix[k].hints|
          ensures IsHintCode(prefix[k].hints[j])
        {
          assert prefix[k] == history[k];
        }
      }
      StatusesAfterRank(m, prefix, c);
      forall j | 0 <= j < Min(|e.word|, |e.hints|)
        ensures IsHintCode(e.hints[j])
      {
        assert e == history[|history| - 1];
      }
      MergeGuessRank(StatusesAfter(m, prefix), e.word, e.hints, Min(|e.word|, |e.hints|), c);
    }
  }

  /** A key never loses rank when a guess is merged, so a green key stays green. */
  lemma KeyNeverDowngraded(m: map<char, Color>, history: seq<Entry>, e: Entry, c: char)
    requires HintCodes(history + [e])
    ensures StatusRank(StatusesAfter(m, history + [e]), c) >= StatusRank(StatusesAfter(m, history), c)
    ensures Lookup(StatusesAfter(m, history), c) == Some(Green) ==>
      Lookup(StatusesAfter(m, history + [e]), c) == Some(Green)
  {
    var h := history + [e];
    assert h[..|h| - 1] == history;
    assert h[|h| - 1] == e;
    forall j | 0 <= j < Min(|e.word|, |e.hints|)
      ensures IsHintCode(e.hints[j])
    {
      assert e.hints[j] == h[|history|].hints[j];
    }
    MergeGuessRank(StatusesAfter(m, history), e.word, e.hints, Min(|e.word|, |e.hints|), c);
  }

  /** What the best rank of one guess says: at least 1 when the letter was typed, at least 2
      when one of its positions was marked found, 3 when one was marked CORRECT. */
  lemma {:induction false} GuessRankLevels(w: string, hs: seq<int>, n: nat, c: char)
    requires n <= |w| && n <= |hs|
    requires forall j :: 0 <= j < n ==> IsHintCode(hs[j])
    ensures GuessRank(w, hs, n, c) <= 3
    ensures GuessRank(w, hs, n, c) >= 1 <==> c in w[..n]
    ensures GuessRank(w, hs, n, c) >= 2 <==> Found(w, hs, n, c) > 0
    ensures GuessRank(w, hs, n, c) == 3 <==> exists j :: 0 <= j < n && w[j] == c && hs[j] == CORRECT
  {
    if n > 0 {
      GuessRankLevels(w, hs, n - 1, c);
      assert w[..n] == w[..n - 1] + [w[n - 1]];
      if w[n - 1] == c && hs[n - 1] == CORRECT {
        assert GuessRank(w, hs, n, c) == 3;
      }
    }
  }

  /** The best rank a scored guess earns for c: 3 exactly when c sits where the answer has it,
      at least 2 exactly when c is in both words, at least 1 exactly when c was typed. The
      second line rests on the letter budget of the hint rule. */
  lemma ScoredGuessRank(g: string, a: string, c: char)
    requires |g| == |a|
    ensures GuessRank(g, Hints(g, a), |g|, c) <= 3
    ensures GuessRank(g, Hints(g, a), |g|, c) == 3 <==> exists j :: 0 <= j < |g| && g[j] == c && a[j] == c
    ensures GuessRank(g, Hints(g, a), |g|, c) >= 2 <==> c in g && c in a
    ensures GuessRank(g, Hints(g, a), |g|, c) >= 1 <==> c in g
  {
    var h := Hints(g, a);
    GuessRankLevels(g, h, |g|, c);
    assert g[..|g|] == g;
    LetterBudget(g, a, c);
    OccPositive(g, |g|, c);
    OccPositive(a, |a|, c);
    if c in g {
      var j :| 0 <= j < |g| && g[j] == c;
    }
    if c in a {
      var j :| 0 <= j < |a| && a[j] == c;
    }
  }

  /** A scored history stays scored without its last entry. */
  lemma ScoredPrefix(history: seq<Entry>, answer: string, n: nat)
    requires Scored(history, answer) && n <= |history|
    ensures Scored(history[..n], answer)
  {
    forall k | 0 <= k < n
      ensures ScoredEntry(history[..n][k], answer)
    {
      assert history[..n][k] == history[k];
      assert ScoredEntry(history[k], answer);
    }
  }

  /** A letter was guessed in a non-empty history iff it was guessed before the last entry or
      in the last entry. */
  lemma GuessedSplit(history: seq<Entry>, c: char)
    requires |history| > 0
    ensures Guessed(history, c) <==>
      Guessed(history[..|history| - 1], c) || c in history[|history| - 1].word
  {
    var n := |history| - 1;
    var prefix := history[..n];
    if Guessed(history, c) {
      var k :| 0 <= k < |history| && c in history[k].word;
      if k < n {
        assert prefix[k] == history[k];
      }
    }
    if Guessed(prefix, c) {
      var k :| 0 <= k < |prefix| && c in prefix[k].word;
      assert prefix[k] == history[k];
    }
  }

  /** A letter was placed in a non-empty history iff it was placed before the last entry or
      by the last entry. */
  lemma PlacedSplit(history: seq<Entry>, answer: string, c: char)
    requires |history| > 0
    ensures Placed(history, answer, c) <==>
      Placed(history[..|history| - 1], answer, c) ||
      exists j :: 0 <= j < |history[|history| - 1].word| && j < |answer| &&
        history[|history| - 1].word[j] == c && answer[j] == c
  {
    var n := |history| - 1;
    var prefix := history[..n];
    if Placed(history, answer, c) {
      var k, j :| 0 <= k < |history| && 0 <= j < |history[k].word| && j < |answer| &&
        history[k].word[j] == c && answer[j] == c;
      if k < n {
        assert prefix[k] == history[k];
      }
    }
    if Placed(prefix, answer, c) {
      var k, j :| 0 <= k < |prefix| && 0 <= j < |prefix[k].word| && j < |answer| &&
        prefix[k].word[j] == c && answer[j] == c;
      assert prefix[k] == history[k];
    }
  }

  /** The best rank over a scored history, in terms of the words alone. */
  lemma {:induction false} HistoryLevels(history: seq<Entry>, answer: string, c: char)
    requires Scored(history, answer)
    ensures HistoryRank(history, c) <= 3
    ensures HistoryRank(history, c) == 3 <==> Placed(history, answer, c)
    ensures HistoryRank(history, c) >= 2 <==> Guessed(history, c) && c in answer
    ensures HistoryRank(history, c) >= 1 <==> Guessed(history, c)
    decreases |history|
  {
    if |history| > 0 {
      var n := |history| - 1;
      var e := history[n];
      ScoredPrefix(history, answer, n);
      assert ScoredEntry(history[n], answer);
      HistoryLevels(history[..n], answer, c);
      ScoredGuessRank(e.word, answer, c);
      GuessedSplit(history, c);
      PlacedSplit(history, answer, c);
    }
  }

  /** What a key on the keyboard tells the player, after any sequence of scored guesses
      starting from the default colours: green exactly when some guess had the letter in its
      right place, yellow when the letter was guessed, is in the answer but never placed,
      grey when it was guessed and is not in the answer, and the default colour when it was
      never guessed. */
  lemma KeyColors(history: seq<Entry>, answer: string, c: char)
    requires Scored(history, answer)
    requires c in LAYOUT_KEYS
    ensures c in StatusesAfter(InitialStatuses(), history)
    ensures StatusesAfter(InitialStatuses(), history)[c] == Green <==> Placed(history, answer, c)
    ensures StatusesAfter(InitialStatuses(), history)[c] == Yellow <==>
      !Placed(history, answer, c) && Guessed(history, c) && c in answer
    ensures StatusesAfter(InitialStatuses(), history)[c] == Grey <==> Guessed(history, c) && c !in answer
    ensures StatusesAfter(InitialStatuses(), history)[c] == DefaultKey <==> !Guessed(history, c)
  {
    assert HintCodes(history) by {
      forall k, j | 0 <= k < |history| && 0 <= j < |history[k].hints|
        ensures IsHintCode(history[k].hints[j])
      {
        assert ScoredEntry(history[k], answer);
      }
    }
    InitialStatusesKeys();
    StatusesAfterKeys(InitialStatuses(), history);
    StatusesAfterRank(InitialStatuses(), history, c);
    HistoryLevels(history, answer, c);
  }
}
