/** The game window of interface.py without its rendering: the letter grid, the cursor, the
    key colours, the two pop-ups, and the routing of key events into the engine. */
module Interface {
  import opened Scoring
  import opened Board
  import opened Keyboard
  import opened KeyStatus
  import opened Engine

  /** A pop-up's state: shown or hidden, its title and its message. */
  datatype Popup = Popup(visible: bool, title: string, message: string)

  const NOT_ENOUGH_LETTERS: string := "NOT ENOUGH LETTERS!"
  const WORD_NOT_FOUND: string := "WORD NOT FOUND!"
  const WIN_TITLE: string := "You Win!"
  const LOSS_TITLE: string := "Game Over"

  /** Decimal digits of n, as an f-string prints an int. */
  function NatToString(n: nat): string
    decreases n
  {
    if n < 10 then [('0' as int + n) as char]
    else NatToString(n / 10) + [('0' as int + n % 10) as char]
  }

  function WinMessage(tries: nat): string {
    "Congratulations! You guessed the word in " + NatToString(tries) + "/6 tries."
  }

  function LossMessage(answer: string): string {
    "You ran out of guesses! The word was **" + answer + "**."
  }

  /** list(word): one cell per letter. */
  function Cells(word: string): seq<string> {
    seq(|word|, i requires 0 <= i < |word| => [word[i]])
  }

  /** [""] * WORD_LENGTH */
  function EmptyRow(): seq<string> {
    seq(WORD_LENGTH, _ => "")
  }

  /** row[:len(word)] = list(word): the leading cells take the word's letters, and a word
      longer than the row lengthens it. */
  function Overwrite(row: seq<string>, word: string): seq<string> {
    Cells(word) + row[Min(|word|, |row|)..]
  }

  /** The grid sync_ui_state_with_logic builds: one row per accepted guess, then the row being
      typed, then empty rows. */
  function Grid(history: seq<Entry>, current: string): seq<seq<string>> {
    seq(MAX_GUESS, r requires 0 <= r < MAX_GUESS =>
      if r < |history| then Cells(history[r].word)
      else if r == |history| then Overwrite(EmptyRow(), current)
      else EmptyRow())
  }

  /** The text a row shows, its cells read left to right. */
  function Joined(row: seq<string>): string
    decreases |row|
  {
    if |row| == 0 then "" else Joined(row[..|row| - 1]) + row[|row| - 1]
  }

  lemma {:induction false} JoinedAppend(a: seq<string>, b: seq<string>)
    ensures Joined(a + b) == Joined(a) + Joined(b)
    decreases |b|
  {
    if |b| > 0 {
      var b' := b[..|b| - 1];
      assert (a + b)[..|a + b| - 1] == a + b';
      assert (a + b)[|a + b| - 1] == b[|b| - 1];
      JoinedAppend(a, b');
    } else {
      assert a + b == a;
    }
  }

  /** A row of cells made from a word reads back as the word. */
  lemma {:induction false} JoinedCells(w: string)
    ensures Joined(Cells(w)) == w
    decreases |w|
  {
    if |w| > 0 {
      var w' := w[..|w| - 1];
      assert Cells(w)[..|w| - 1] == Cells(w');
      JoinedCells(w');
    }
  }

  /** A row of blank cells reads as nothing. */
  lemma {:induction false} JoinedBlank(row: seq<string>)
    requires forall i :: 0 <= i < |row| ==> row[i] == ""
    ensures Joined(row) == ""
    decreases |row|
  {
    if |row| > 0 {
      JoinedBlank(row[..|row| - 1]);
    }
  }

  /** What the grid shows: every accepted guess on its own row, the letters typed so far on
      the next row, nothing below; every row but an overlong one keeps WORD_LENGTH cells. */
  lemma GridShows(history: seq<Entry>, current: string)
    requires |history| <= MAX_GUESS
    ensures |Grid(history, current)| == MAX_GUESS
    ensures forall r :: 0 <= r < |history| ==> Joined(Grid(history, current)[r]) == history[r].word
    ensures |history| < MAX_GUESS ==> Joined(Grid(history, current)[|history|]) == current
    ensures forall r :: |history| < r < MAX_GUESS ==> Joined(Grid(history, current)[r]) == ""
    ensures (forall k :: 0 <= k < |history| ==> |history[k].word| == WORD_LENGTH) && |current| <= WORD_LENGTH ==>
      forall r :: 0 <= r < MAX_GUESS ==> |Grid(history, current)[r]| == WORD_LENGTH
  {
    var g := Grid(history, current);
    forall r | 0 <= r < |history|
      ensures Joined(g[r]) == history[r].word
    {
      JoinedCells(history[r].word);
    }
    if |history| < MAX_GUESS {
      var rest := EmptyRow()[Min(|current|, WORD_LENGTH)..];
      assert |EmptyRow()| == WORD_LENGTH;
      assert g[|history|] == Overwrite(EmptyRow(), current) == Cells(current) + rest;
      assert |current| <= WORD_LENGTH ==> |rest| == WORD_LENGTH - |current|;
      JoinedCells(current);
      JoinedBlank(rest);
      JoinedAppend(Cells(current), rest);
    }
    forall r | |history| < r < MAX_GUESS
      ensures Joined(g[r]) == ""
    {
      JoinedBlank(EmptyRow());
    }
  }

  class Wordle {
    const wordList: seq<string>
    var logic: Logic
    var currentGuessRow: int
    var currentGuessCol: int
    var currentLetterCol: int
    var gameOver: bool
    var win: bool
    var guesses: seq<seq<string>>
    var keyStatuses: map<char, Color>
    var gameOverWindow: Popup
    var warningWindow: Popup

    /** The window agrees with the engine: at most MAX_GUESS guesses, the round is won exactly
        when the last guess is the answer (and no earlier one was), it is over exactly when won
        or out of guesses, every key shows the merge of all hints so far, the grid and the
        cursor show the history and the buffer, and the game-over pop-up only shows once the
        round is over. */
    ghost predicate Valid()
      reads this, logic
    {
      logic.Valid() && logic.wordList == wordList &&
      |logic.history| <= MAX_GUESS &&
      (win <==> |logic.history| > 0 && logic.history[|logic.history| - 1].word == logic.answer) &&
      (forall k :: 0 <= k < |logic.history| - 1 ==> logic.history[k].word != logic.answer) &&
      (gameOver <==> win || |logic.history| == MAX_GUESS) &&
      keyStatuses == StatusesAfter(InitialStatuses(), logic.history) &&
      guesses == Grid(logic.history, logic.currentGuess) &&
      currentGuessCol == 0 &&
      currentGuessRow == Min(|logic.history|, MAX_GUESS - 1) &&
      currentLetterCol == (if |logic.history| < MAX_GUESS then |logic.currentGuess| else WORD_LENGTH) &&
      (gameOverWindow.visible ==> gameOver)
    }

    /** Between two states: the engine object is the same, its buffer is `buffer`, and the
        history, the key colours, the round's outcome and the game-over pop-up are unchanged. */
    twostate predicate RoundKept(buffer: string)
      reads this, logic
    {
      logic == old(logic) &&
      logic.currentGuess == buffer && logic.history == old(logic.history) &&
      keyStatuses == old(keyStatuses) && gameOver == old(gameOver) && win == old(win) &&
      gameOverWindow == old(gameOverWindow)
    }

    /** Between two states: as RoundKept, and the warning pop-up is unchanged too. */
    twostate predicate BufferBecomes(buffer: string)
      reads this, logic
    {
      RoundKept(buffer) && warningWindow == old(warningWindow)
    }

    /** Between two states: the effect of submit_answer. A full-length word of the list is
        scored, recorded and merged into the key colours, and a win or the last guess ends the
        round with its pop-up; any other buffer stays as it is and the warning pop-up says why. */
    twostate predicate Answered()
      reads this, logic
    {
      var guess := old(logic.currentGuess);
      logic == old(logic) &&
      if |guess| == |logic.answer| && Lower(guess) in wordList then
        var hints := Hints(guess, logic.answer);
        logic.history == old(logic.history) + [Entry(guess, hints)] && logic.currentGuess == "" &&
        keyStatuses == MergeGuess(old(keyStatuses), guess, hints, |guess|) &&
        (win <==> guess == logic.answer) &&
        (gameOver <==> win || |logic.history| == MAX_GUESS) &&
        gameOverWindow == (if win then Popup(true, WIN_TITLE, WinMessage(|logic.history|))
                           else if gameOver then Popup(true, LOSS_TITLE, LossMessage(logic.answer))
                           else old(gameOverWindow)) &&
        warningWindow == old(warningWindow)
      else
        RoundKept(guess) &&
        warningWindow == old(warningWindow).(visible := true,
          message := if |guess| < WORD_LENGTH then NOT_ENOUGH_LETTERS else WORD_NOT_FOUND)
    }

    /** Between two states: the effect of update_ui(key). A key occurring in the layout goes
        to get_letter, BACKSPACE to remove_letter, ENTER to submit_answer; anything else only
        redraws. */
    twostate predicate KeyHandled(key: string)
      reads this, logic
    {
      if IsInputKey(key) then BufferBecomes(AfterGetLetter(old(logic.currentGuess), |logic.answer|, key))
      else if key == "BACKSPACE" then BufferBecomes(AfterRemoveLetter(old(logic.currentGuess)))
      else if key == "ENTER" then Answered()
      else BufferBecomes(old(logic.currentGuess))
    }

    /** A window over `words` whose first round has answer entry `choice`. The key colours start
        at the default as restart_game_and_close_window sets them. */
    constructor (words: seq<string>, choice: nat)
      requires choice < |words|
      ensures Valid() && wordList == words && fresh(logic)
      ensures logic.answer == Upper(words[choice]) && logic.history == [] && logic.currentGuess == ""
      ensures !gameOver && !win && keyStatuses == InitialStatuses()
      ensures !gameOverWindow.visible && !warningWindow.visible
    {
      wordList := words;
      logic := new Logic(words, choice);
      currentGuessRow := 0;
      currentGuessCol := 0;
      currentLetterCol := 0;
      gameOver := false;
      win := false;
      guesses := seq(MAX_GUESS, _ => EmptyRow());
      keyStatuses := InitialStatuses();
      gameOverWindow := Popup(false, "", "");
      warningWindow := Popup(false, "Warning", "");
      new;
      assert Overwrite(EmptyRow(), "") == EmptyRow();
    }

    /** Rebuilds the grid and the cursor from the engine; once every guess is used the cursor
        parks past the last cell and the round is over. */
    method SyncUiStateWithLogic()
      requires logic.Valid() && |logic.history| <= MAX_GUESS
      modifies this`guesses, this`currentGuessRow, this`currentLetterCol, this`gameOver
      ensures guesses == Grid(logic.history, logic.currentGuess)
      ensures currentGuessRow == Min(|logic.history|, MAX_GUESS - 1)
      ensures currentLetterCol == if |logic.history| < MAX_GUESS then |logic.currentGuess| else WORD_LENGTH
      ensures gameOver == (old(gameOver) || |logic.history| == MAX_GUESS)
    {
      var rows := seq(MAX_GUESS, _ => EmptyRow());
      var history := logic.history;
      for r := 0 to |history|
        invariant |rows| == MAX_GUESS
        invariant forall i :: 0 <= i < MAX_GUESS ==>
          rows[i] == if i < r then Cells(history[i].word) else EmptyRow()
      {
        rows := rows[r := Cells(history[r].word)];
      }
      var currentWord := logic.GetCurrentWord();
      var currentRow := |history|;
      if currentRow < MAX_GUESS {
        rows := rows[currentRow := Overwrite(rows[currentRow], currentWord)];
        guesses := rows;
        currentGuessRow := currentRow;
        currentLetterCol := |currentWord|;
      } else {
        guesses := rows;
        currentGuessRow := MAX_GUESS - 1;
        currentLetterCol := WORD_LENGTH;
        gameOver := true;
      }
    }

    /** The colour merge of submit_answer over the pairs zip(word, hints). */
    method MergeKeyStatuses(word: string, hints: seq<int>)
      modifies this`keyStatuses
      ensures keyStatuses == MergeGuess(old(keyStatuses), word, hints, Min(|word|, |hints|))
    {
      for i := 0 to Min(|word|, |hints|)
        invariant keyStatuses == MergeGuess(old(keyStatuses), word, hints, i)
      {
        var letter := word[i];
        var fletColor := HintColor(hints[i]);
        var currentColor := Lookup(keyStatuses, letter);
        if currentColor == Some(Green) {
          continue;
        }
        if fletColor == Green {
          keyStatuses := keyStatuses[letter := fletColor];
        } else if fletColor == Yellow && currentColor != Some(Green) {
          keyStatuses := keyStatuses[letter := fletColor];
        } else if fletColor == Grey && currentColor != Some(Green) && currentColor != Some(Yellow) {
          keyStatuses := keyStatuses[letter := fletColor];
        }
      }
    }

    method ShowWarningDialog(message: string)
      modifies this`warningWindow
      ensures warningWindow == old(warningWindow).(visible := true, message := message)
    {
      warningWindow := warningWindow.(message := message);
      warningWindow := warningWindow.(visible := true);
    }

    method ShowGameOverDialog(title: string, message: string)
      modifies this`gameOverWindow
      ensures gameOverWindow == Popup(true, title, message)
    {
      gameOverWindow := gameOverWindow.(title := title, message := message);
      gameOverWindow := gameOverWindow.(visible := true);
    }

    method CloseGameOverWindow()
      modifies this`gameOverWindow
      ensures gameOverWindow == old(gameOverWindow).(visible := false)
    {
      gameOverWindow := gameOverWindow.(visible := false);
    }

    method CloseWarningWindow()
      modifies this`warningWindow
      ensures warningWindow == old(warningWindow).(visible := false)
    {
      warningWindow := warningWindow.(visible := false);
    }

    /** Submits the buffer to the engine; see Answered. */
    method SubmitAnswer()
      requires Valid() && !gameOver
      modifies this, logic
      ensures Valid()
      ensures Answered()
    {
      var hints, isWin, submitted := logic.SubmitGuess();
      if !submitted {
        var currentWord := logic.GetCurrentWord();
        if |currentWord| < WORD_LENGTH {
          ShowWarningDialog(NOT_ENOUGH_LETTERS);
        } else {
          ShowWarningDialog(WORD_NOT_FOUND);
        }
        return;
      }
      var guessWord := logic.history[|logic.history| - 1].word;
      RecordAnswer(guessWord, hints, isWin);
    }

    /** The rest of submit_answer once the engine has accepted `word` with `hints`: the key
        colours take the hints, the grid and cursor are rebuilt, and the round ends on a win
        or on the last guess. */
    method RecordAnswer(word: string, hints: seq<int>, isWin: bool)
      requires logic.Valid() && logic.wordList == wordList
      requires 0 < |logic.history| <= MAX_GUESS
      requires logic.history[|logic.history| - 1] == Entry(word, hints)
      requires |hints| == |word|
      requires isWin <==> word == logic.answer
      requires forall k :: 0 <= k < |logic.history| - 1 ==> logic.history[k].word != logic.answer
      requires !gameOver && !win && !gameOverWindow.visible && currentGuessCol == 0
      requires keyStatuses == StatusesAfter(InitialStatuses(), logic.history[..|logic.history| - 1])
      modifies this`keyStatuses, this`guesses, this`currentGuessRow, this`currentLetterCol,
        this`gameOver, this`win, this`gameOverWindow
      ensures Valid()
      ensures keyStatuses == MergeGuess(old(keyStatuses), word, hints, |word|)
      ensures win == isWin && (gameOver <==> isWin || |logic.history| == MAX_GUESS)
      ensures gameOverWindow == (if isWin then Popup(true, WIN_TITLE, WinMessage(|logic.history|))
                                 else if gameOver then Popup(true, LOSS_TITLE, LossMessage(logic.answer))
                                 else old(gameOverWindow))
    {
      ghost var before := logic.history[..|logic.history| - 1];
      ghost var e := Entry(word, hints);
      assert logic.history == before + [e];
      HistoryStatuses(before, e);
      MergeKeyStatuses(word, hints);
      SyncUiStateWithLogic();
      EndRound(isWin);
    }

    /** The end of submit_answer: a winning guess ends the round with the win pop-up, the
        last allowed guess with the loss pop-up; any other guess leaves the round going. */
    method EndRound(isWin: bool)
      modifies this`gameOver, this`win, this`gameOverWindow
      ensures isWin ==>
        gameOver && win && gameOverWindow == Popup(true, WIN_TITLE, WinMessage(|logic.history|))
      ensures !isWin && |logic.history| >= MAX_GUESS ==>
        gameOver && win == old(win) && gameOverWindow == Popup(true, LOSS_TITLE, LossMessage(logic.answer))
      ensures !isWin && |logic.history| < MAX_GUESS ==>
        gameOver == old(gameOver) && win == old(win) && gameOverWindow == old(gameOverWindow)
    {
      if isWin {
        gameOver := true;
        win := true;
        ShowGameOverDialog(WIN_TITLE, WinMessage(|logic.history|));
      } else if |logic.history| >= MAX_GUESS {
        gameOver := true;
        ShowGameOverDialog(LOSS_TITLE, LossMessage(logic.answer));
      }
    }

    /** Routes one key to the engine and redraws; see KeyHandled. */
    method UpdateUi(key: string)
      requires Valid() && !gameOver
      modifies this, logic
      ensures Valid()
      ensures KeyHandled(key)
    {
      if IsInputKey(key) {
        logic.GetLetter(key);
      } else if key == "BACKSPACE" {
        logic.RemoveLetter();
      } else if key == "ENTER" {
        SubmitAnswer();
        return;
      }
      SyncUiStateWithLogic();
    }

    /** A physical key press: ignored while the round is over or a pop-up is showing;
        otherwise the key name, upper-cased, is routed when it is an input key, ENTER or
        BACKSPACE. */
    method OnKeyboardEvent(eventKey: string)
      requires Valid()
      modifies this, logic
      ensures Valid()
      ensures old(gameOver || warningWindow.visible || gameOverWindow.visible) ==>
        BufferBecomes(old(logic.currentGuess))
      ensures !old(gameOver || warningWindow.visible || gameOverWindow.visible) ==>
        var key := Upper(eventKey);
        if IsInputKey(key) || key == "ENTER" || key == "BACKSPACE" then KeyHandled(key)
        else BufferBecomes(old(logic.currentGuess))
    {
      if gameOver || warningWindow.visible || gameOverWindow.visible {
        return;
      }
      var key := Upper(eventKey);
      if !gameOver {
        if IsInputKey(key) {
          UpdateUi(key);
        } else if key == "ENTER" {
          UpdateUi("ENTER");
        } else if key == "BACKSPACE" {
          UpdateUi("BACKSPACE");
        }
      }
    }

    /** A click on an on-screen key carrying `data`: the same gate, then update_ui. */
    method HandleKeyPress(data: string)
      requires Valid()
      modifies this, logic
      ensures Valid()
      ensures old(gameOver || warningWindow.visible || gameOverWindow.visible) ==>
        BufferBecomes(old(logic.currentGuess))
      ensures !old(gameOver || warningWindow.visible || gameOverWindow.visible) ==> KeyHandled(data)
    {
      if gameOver || warningWindow.visible || gameOverWindow.visible {
        return;
      }
      if !gameOver {
        UpdateUi(data);
      }
    }

    /** A new round over the same words with answer entry `choice`: empty grid, cursor home,
        default key colours, game-over pop-up closed. */
    method RestartGameAndCloseWindow(choice: nat)
      requires choice < |wordList|
      modifies this
      ensures Valid() && fresh(logic)
      ensures logic.answer == Upper(wordList[choice]) && logic.history == [] && logic.currentGuess == ""
      ensures !gameOver && !win && keyStatuses == InitialStatuses()
      ensures gameOverWindow == old(gameOverWindow).(visible := false)
      ensures warningWindow == old(warningWindow)
    {
      logic := new Logic(wordList, choice);
      currentGuessRow := 0;
      currentGuessCol := 0;
      currentLetterCol := 0;
      guesses := seq(MAX_GUESS, _ => EmptyRow());
      keyStatuses := InitialStatuses();
      gameOver := false;
      win := false;
      CloseGameOverWindow();
      assert Overwrite(EmptyRow(), "") == EmptyRow();
    }

    /** The game-over pop-up's timer firing: a pop-up still showing starts a new round. */
    method GameOverTimeout(choice: nat)
      requires Valid() && choice < |wordList|
      modifies this
      ensures Valid()
      ensures old(gameOverWindow.visible) ==>
        fresh(logic) && logic.answer == Upper(wordList[choice]) && logic.history == [] &&
        logic.currentGuess == "" && !gameOver && !win && keyStatuses == InitialStatuses() &&
        gameOverWindow == old(gameOverWindow).(visible := false) &&
        warningWindow == old(warningWindow)
      ensures !old(gameOverWindow.visible) ==> BufferBecomes(old(logic.currentGuess))
    {
      if gameOverWindow.visible {
        RestartGameAndCloseWindow(choice);
      }
    }

    /** The warning pop-up's timer firing: a warning still showing is hidden. */
    method WarningTimeout()
      modifies this`warningWindow
      ensures warningWindow == old(warningWindow).(visible := false)
    {
      if warningWindow.visible {
        warningWindow := warningWindow.(visible := false);
      }
    }
  }

  /** The key colours after one more guess are that guess merged into the colours before it. */
  lemma HistoryStatuses(history: seq<Entry>, e: Entry)
    ensures StatusesAfter(InitialStatuses(), history + [e]) ==
      MergeGuess(StatusesAfter(InitialStatuses(), history), e.word, e.hints, Min(|e.word|, |e.hints|))
  {
    assert (history + [e])[..|history|] == history;
  }
}
