/**
  The game object of Wordy.py: the cursor into the board, the letters of the guess being
  typed, the six-by-five grid of letter boxes, the keyboard key colours, the word lists and
  the options, with the handlers for the keyboard and the start button.

  A letter box's text is `None` while it is empty; its colour is `None` until the row it is
  in has been scored. A key colour is absent from `keyColours` until a guess first paints it.
  The lines of the two word-list files, the text of the specify-word entry field and the
  choice `random.choice` makes are parameters.
 */
module Game {
  import opened Wrappers
  import opened Text
  import opened Evaluation

  /** The number of letters in the hidden word. */
  const WORD_SIZE := 5
  /** The number of guesses the player has. */
  const NUM_GUESSES := 6

  /** A keyboard button: a letter key (its name), ENTER or BACK. */
  datatype Key = Letter(name: char) | Enter | Back

  /** What a key press did, one case per branch of the key handler (and the message it shows). */
  datatype KeyOutcome =
    | Typed              // a letter was put in the next box
    | Erased             // the last letter was taken out
    | Ignored            // a letter on a full row, or BACK on an empty one
    | WordNotFinished    // ENTER before five letters
    | NotInWordList      // ENTER on a word missing from the long list, when guesses must be words
    | Correct            // ENTER on the hidden word
    | GuessesUsedUp      // ENTER on a wrong word in the last row
    | NextRow            // ENTER on a wrong word before the last row
    | IndexOutOfRange    // ENTER with a hidden word longer than the guess: the scoring raises

  /** What the start button did. */
  datatype StartOutcome =
    | Started            // a hidden word is set and the options are locked
    | IncorrectLength    // the specified word does not have five letters
    | NotAValidWord      // the specified word is not in the long list, when guesses must be words
    | EmptyShortList     // no word to choose from: random.choice raises

  function BlankRow<T>(): seq<Option<T>> {
    seq(WORD_SIZE, _ => None)
  }

  /** A freshly created grid: every box empty and uncoloured. */
  function BlankGrid<T>(): seq<seq<Option<T>>> {
    seq(NUM_GUESSES, _ => BlankRow())
  }

  // ---------------------------------------------------------------------------
  // The word-list filter of word_lists
  // ---------------------------------------------------------------------------

  /** Every word has the game's length and no surrounding whitespace. */
  predicate WordsOk(words: seq<string>) {
    forall k :: 0 <= k < |words| ==> |words[k]| == WORD_SIZE && IsStripped(words[k])
  }

  /** The lines of a word file, stripped, keeping those of length `WORD_SIZE`, in file order. */
  function Filtered(lines: seq<string>): seq<string> {
    if lines == [] then []
    else
      var w := Strip(lines[|lines| - 1]);
      Filtered(lines[..|lines| - 1]) + if |w| == WORD_SIZE then [w] else []
  }

  /** Every loaded word has five letters and no surrounding whitespace. */
  lemma {:induction false} FilteredWordsOk(lines: seq<string>)
    ensures WordsOk(Filtered(lines))
  {
    if lines != [] {
      var w := Strip(lines[|lines| - 1]);
      StripTrims(lines[|lines| - 1]);
      FilteredWordsOk(lines[..|lines| - 1]);
      var last := if |w| == WORD_SIZE then [w] else [];
      assert WordsOk(last);
      WordsOkAppend(Filtered(lines[..|lines| - 1]), last);
    }
  }

  lemma WordsOkAppend(a: seq<string>, b: seq<string>)
    requires WordsOk(a) && WordsOk(b)
    ensures WordsOk(a + b)
  {
    forall k | 0 <= k < |a + b|
      ensures |(a + b)[k]| == WORD_SIZE && IsStripped((a + b)[k])
    {
      if k < |a| {
        assert (a + b)[k] == a[k];
      } else {
        assert (a + b)[k] == b[k - |a|];
      }
    }
  }

  /** One more line of the file adds its word exactly when it loads as one. */
  lemma FilteredSnoc(lines: seq<string>, w: string)
    requires lines != []
    ensures w in Filtered(lines) <==> w in Filtered(lines[..|lines| - 1]) || LoadsAs(lines[|lines| - 1], w)
  {
    var stripped := Strip(lines[|lines| - 1]);
    var last := if |stripped| == WORD_SIZE then [stripped] else [];
    assert Filtered(lines) == Filtered(lines[..|lines| - 1]) + last;
  }

  /** The line `line` of a word file loads as the word `w`. */
  predicate LoadsAs(line: string, w: string) {
    Strip(line) == w && |w| == WORD_SIZE
  }

  /** Every loaded word comes from a line of the file that strips to it. */
  lemma {:induction false} FilteredWordsSound(lines: seq<string>, w: string)
    requires w in Filtered(lines)
    ensures exists k :: 0 <= k < |lines| && LoadsAs(lines[k], w)
  {
    var n := |lines| - 1;
    var front := lines[..n];
    FilteredSnoc(lines, w);
    if w in Filtered(front) {
      FilteredWordsSound(front, w);
      var k :| 0 <= k < |front| && LoadsAs(front[k], w);
      assert lines[k] == front[k];
    } else {
      assert LoadsAs(lines[n], w);
    }
  }

  /** Every line that strips to a five-letter word has that word loaded. */
  lemma {:induction false} FilteredWordsComplete(lines: seq<string>, w: string, k: nat)
    requires k < |lines| && LoadsAs(lines[k], w)
    ensures w in Filtered(lines)
  {
    var n := |lines| - 1;
    var front := lines[..n];
    FilteredSnoc(lines, w);
    if k < n {
      assert front[k] == lines[k];
      FilteredWordsComplete(front, w, k);
      assert w in Filtered(front);
    } else {
      assert LoadsAs(lines[|lines| - 1], w);
    }
  }

  /**
    The board has six rows of five boxes, the cursor is on it, the letters typed into row
    `row` are exactly the texts of its boxes up to column `col`, and the rows below it are
    empty and uncoloured.
   */
  ghost predicate BoardOk(row: int, col: int, letters: seq<char>,
                          text: seq<seq<Option<char>>>, colours: seq<seq<Option<Colour>>>)
  {
    && |text| == NUM_GUESSES && |colours| == NUM_GUESSES
    && (forall r :: 0 <= r < NUM_GUESSES ==> |text[r]| == WORD_SIZE && |colours[r]| == WORD_SIZE)
    && 0 <= row < NUM_GUESSES && 0 <= col <= WORD_SIZE && col == |letters|
    && (forall k :: 0 <= k < WORD_SIZE ==> text[row][k] == if k < col then Some(letters[k]) else None)
    && (forall r, k :: row < r < NUM_GUESSES && 0 <= k < WORD_SIZE ==> text[r][k] == None && colours[r][k] == None)
  }

  /** The board letter_frames builds is well formed. */
  lemma BlankBoardOk()
    ensures BoardOk(0, 0, [], BlankGrid(), BlankGrid())
  {
  }

  /** Scoring the cursor's row keeps the board well formed. */
  lemma ScoringKeepsBoard(row: int, col: int, letters: seq<char>, text: seq<seq<Option<char>>>,
                          colours: seq<seq<Option<Colour>>>, painted: seq<Option<Colour>>)
    requires BoardOk(row, col, letters, text, colours) && |painted| == WORD_SIZE
    ensures BoardOk(row, col, letters, text, colours[row := painted])
  {
  }

  /** Moving to the start of the next row after a full row keeps the board well formed. */
  lemma NextRowKeepsBoard(row: int, letters: seq<char>, text: seq<seq<Option<char>>>,
                          colours: seq<seq<Option<Colour>>>)
    requires BoardOk(row, WORD_SIZE, letters, text, colours) && row < NUM_GUESSES - 1
    ensures BoardOk(row + 1, 0, [], text, colours)
  {
  }

  /** The game window's state. */
  class Wordy {
    /** current_guess["row"] and current_guess["col"]. */
    var row: nat
    var col: nat
    /** guessed_letters_list: the key names typed into the current row. */
    var guessedLetters: seq<char>
    /** The text of each letter box (letter_box_list), row by row. */
    var boxText: seq<seq<Option<char>>>
    /** The background of each letter box (letter_frame_list), row by row. */
    var boxColour: seq<seq<Option<Colour>>>
    /** The text colour of each keyboard button (button_dict), by key name. */
    var keyColours: map<char, Colour>
    var hiddenWord: string
    var shortWordList: seq<string>
    var longWordList: seq<string>
    /** The "Guesses must be words" and "Specify Word" checkboxes and the entry beside the latter. */
    var guessesMustBeWords: bool
    var specifyWord: bool
    var specifiedEntry: string
    /** False once a game has started: the checkboxes are disabled. */
    var optionsEnabled: bool

    /**
      The cursor is on the board, the row's typed letters are exactly the letters in the row's
      boxes up to the cursor, the rows below it are untouched, and the loaded words are all
      five-letter stripped words.
     */
    ghost predicate Valid()
      reads this
    {
      BoardOk(row, col, guessedLetters, boxText, boxColour) && WordsOk(shortWordList) && WordsOk(longWordList)
    }

    /** The window as it opens: a blank board, no words loaded, no hidden word. */
    constructor ()
      ensures Valid()
      ensures row == 0 && col == 0 && guessedLetters == []
      ensures boxText == BlankGrid() && boxColour == BlankGrid() && keyColours == map[]
      ensures hiddenWord == "" && shortWordList == [] && longWordList == []
      ensures guessesMustBeWords && !specifyWord && specifiedEntry == "" && optionsEnabled
    {
      keyColours := map[];
      guessesMustBeWords, specifyWord, specifiedEntry := true, false, "";
      optionsEnabled := true;
      shortWordList, longWordList := [], [];
      hiddenWord := "";
      new;
      LetterFrames();
    }

    // -------------------------------------------------------------------------
    // The options (what Tk lets the player do with the checkboxes and the entry)
    // -------------------------------------------------------------------------

    /** Clicking "Guesses must be words" flips it, unless a started game has disabled it. */
    method ToggleGuessesMustBeWords()
      modifies this`guessesMustBeWords
      ensures guessesMustBeWords == if optionsEnabled then !old(guessesMustBeWords) else old(guessesMustBeWords)
    {
      if optionsEnabled {
        guessesMustBeWords := !guessesMustBeWords;
      }
    }

    /** Clicking "Specify Word" flips it, unless a started game has disabled it. */
    method ToggleSpecifyWord()
      modifies this`specifyWord
      ensures specifyWord == if optionsEnabled then !old(specifyWord) else old(specifyWord)
    {
      if optionsEnabled {
        specifyWord := !specifyWord;
      }
    }

    /** The entry field is never disabled. */
    method EditSpecifiedEntry(text: string)
      modifies this`specifiedEntry
      ensures specifiedEntry == text
    {
      specifiedEntry := text;
    }

    // -------------------------------------------------------------------------
    // letter_frames and word_lists
    // -------------------------------------------------------------------------

    /** Builds a fresh grid of empty boxes and puts the cursor at the first box of the first row. */
    method LetterFrames()
      modifies this`boxText, this`boxColour, this`row, this`col, this`guessedLetters
      ensures boxText == BlankGrid() && boxColour == BlankGrid()
      ensures row == 0 && col == 0 && guessedLetters == []
    {
      boxText, boxColour := [], [];
      row, col := 0, 0;
      guessedLetters := [];
      for r := 0 to NUM_GUESSES
        invariant boxText == seq(r, _ => BlankRow()) && boxColour == seq(r, _ => BlankRow())
        invariant row == 0 && col == 0 && guessedLetters == []
      {
        var texts: seq<Option<char>>, frames: seq<Option<Colour>> := [], [];
        for c := 0 to WORD_SIZE
          invariant texts == seq(c, _ => None) && frames == seq(c, _ => None)
        {
          texts, frames := texts + [None], frames + [None];
        }
        assert texts == BlankRow() && frames == BlankRow();
        boxText, boxColour := boxText + [texts], boxColour + [frames];
      }
    }

    /**
      Appends to each list the stripped five-letter lines of its file. The lists are not
      cleared first, so every start adds the files' words once more.
     */
    method WordLists(shortLines: seq<string>, longLines: seq<string>)
      modifies this`shortWordList, this`longWordList
      ensures shortWordList == old(shortWordList) + Filtered(shortLines)
      ensures longWordList == old(longWordList) + Filtered(longLines)
    {
      for i := 0 to |shortLines|
        invariant shortWordList == old(shortWordList) + Filtered(shortLines[..i])
        invariant longWordList == old(longWordList)
      {
        var word := Strip(shortLines[i]);
        if |word| == WORD_SIZE {
          shortWordList := shortWordList + [word];
        }
        assert shortLines[..i + 1][..i] == shortLines[..i];
      }
      assert shortLines[..|shortLines|] == shortLines;
      for i := 0 to |longLines|
        invariant shortWordList == old(shortWordList) + Filtered(shortLines)
        invariant longWordList == old(longWordList) + Filtered(longLines[..i])
      {
        var word := Strip(longLines[i]);
        if |word| == WORD_SIZE {
          longWordList := longWordList + [word];
        }
        assert longLines[..i + 1][..i] == longLines[..i];
      }
      assert longLines[..|longLines|] == longLines;
    }

    // -------------------------------------------------------------------------
    // Scoring a guess
    // -------------------------------------------------------------------------

    /**
      The order in which color_change visits the positions of the hidden word, or `None`
      when the typed guess is shorter than the hidden word and indexing it raises.
     */
    method GetOrderOfLetters() returns (order: Option<seq<nat>>)
      ensures order.None? <==> |hiddenWord| > |guessedLetters|
      ensures order.Some? ==> order.value == Order(hiddenWord, LowerString(guessedLetters))
    {
      var guessedWord := LowerString(guessedLetters);
      var orderOfGuesses: seq<nat> := [];
      for i := 0 to |hiddenWord|
        invariant i <= |guessedWord|
        invariant orderOfGuesses == ExactsDesc(hiddenWord, guessedWord, i) + MissesAsc(hiddenWord, guessedWord, i)
      {
        if i >= |guessedWord| {
          return None;
        }
        if hiddenWord[i] == guessedWord[i] {
          orderOfGuesses := [i] + orderOfGuesses;
        } else {
          orderOfGuesses := orderOfGuesses + [i];
        }
      }
      return Some(orderOfGuesses);
    }

    /**
      Scores the completed row `r`: paints its first `|hiddenWord|` boxes with their verdicts
      and the keys typed there as their last-visited box, or raises (and changes nothing) when
      the hidden word is longer than the guess.
     */
    method ColourChange(r: nat) returns (crashed: bool)
      requires r < |boxColour| && |boxColour[r]| == WORD_SIZE && |guessedLetters| == WORD_SIZE
      requires r < |boxText| && |boxText[r]| == WORD_SIZE
      requires forall k :: 0 <= k < WORD_SIZE ==> boxText[r][k] == Some(guessedLetters[k])
      modifies this`boxColour, this`keyColours
      ensures crashed <==> |hiddenWord| > WORD_SIZE
      ensures crashed ==> boxColour == old(boxColour) && keyColours == old(keyColours)
      ensures !crashed ==> boxColour == old(boxColour)[r := Painted(old(boxColour)[r], Verdicts(hiddenWord, LowerString(guessedLetters)))]
      ensures !crashed ==> keyColours == KeyboardAfter(hiddenWord, guessedLetters, old(keyColours))
    {
      var order := GetOrderOfLetters();
      if order.None? {
        return true;
      }
      OrderIsPermutation(hiddenWord, LowerString(guessedLetters));
      PaintInOrder(r, order.value);
      ColourChangeMeetsReference(hiddenWord, guessedLetters, old(boxColour)[r], old(keyColours));
      return false;
    }

    /** The loop of color_change: visits the boxes of row `r` in the order `orderOfGuesses`. */
    method PaintInOrder(r: nat, orderOfGuesses: seq<nat>)
      requires r < |boxColour| && |boxColour[r]| == WORD_SIZE && |hiddenWord| <= |guessedLetters| == WORD_SIZE
      requires r < |boxText| && |boxText[r]| == WORD_SIZE
      requires forall k :: 0 <= k < WORD_SIZE ==> boxText[r][k] == Some(guessedLetters[k])
      requires forall k :: 0 <= k < |orderOfGuesses| ==> orderOfGuesses[k] < |hiddenWord|
      modifies this`boxColour, this`keyColours
      ensures var pass := Run(hiddenWord, guessedLetters, Pass(old(boxColour)[r], old(keyColours), []), orderOfGuesses);
        boxColour == old(boxColour)[r := pass.colours] && keyColours == pass.keys
    {
      var lettersGuessed: seq<char> := [];
      ghost var h, raw := hiddenWord, guessedLetters;
      ghost var st0 := Pass(boxColour[r], keyColours, []);
      ghost var pass := st0;
      for i := 0 to |orderOfGuesses|
        invariant pass == Run(h, raw, st0, orderOfGuesses[..i]) && |pass.colours| == WORD_SIZE
        invariant boxColour == old(boxColour)[r := pass.colours]
        invariant keyColours == pass.keys && lettersGuessed == pass.lettersGuessed
      {
        var c := orderOfGuesses[i];
        assert orderOfGuesses[..i + 1] == orderOfGuesses[..i] + [c];
        RunSnoc(h, raw, st0, orderOfGuesses[..i], c);
        pass := Step(h, raw, pass, c);
        lettersGuessed := PaintBox(r, c, lettersGuessed);
      }
      assert orderOfGuesses[..|orderOfGuesses|] == orderOfGuesses;
    }

    /**
      The body of the loop of color_change for the box in column `c` of row `r`, given the
      letters counted so far: one step of the replay `Step`.
     */
    method PaintBox(r: nat, c: nat, lettersGuessed: seq<char>) returns (newLettersGuessed: seq<char>)
      requires r < |boxColour| && c < |boxColour[r]| && c < |hiddenWord| <= |guessedLetters| == |boxColour[r]|
      requires r < |boxText| && c < |boxText[r]| && boxText[r][c] == Some(guessedLetters[c])
      modifies this`boxColour, this`keyColours
      ensures var next := Step(hiddenWord, guessedLetters, Pass(old(boxColour)[r], old(keyColours), lettersGuessed), c);
        && boxColour == old(boxColour)[r := next.colours]
        && keyColours == next.keys
        && newLettersGuessed == next.lettersGuessed
    {
      ghost var v := StepColour(hiddenWord, guessedLetters, lettersGuessed, c);
      var text := boxText[r][c].value;
      var curLetter := Lower(text);
      newLettersGuessed := lettersGuessed;
      if curLetter == hiddenWord[c] {
        assert v == Green;
        boxColour := boxColour[r := boxColour[r][c := Some(Green)]];
        keyColours := keyColours[text := Green];
      } else if curLetter in hiddenWord {
        if curLetter in lettersGuessed {
          if multiset(lettersGuessed)[curLetter] >= multiset(hiddenWord)[curLetter] {
            assert v == Grey;
            boxColour := boxColour[r := boxColour[r][c := Some(Grey)]];
            keyColours := keyColours[text := Grey];
            return;
          }
        }
        assert v == Orange;
        boxColour := boxColour[r := boxColour[r][c := Some(Orange)]];
        keyColours := keyColours[text := Orange];
      } else {
        assert v == Grey;
        boxColour := boxColour[r := boxColour[r][c := Some(Grey)]];
        keyColours := keyColours[text := Grey];
      }
      newLettersGuessed := lettersGuessed + [curLetter];
    }

    // -------------------------------------------------------------------------
    // keyboard_button_handler
    // -------------------------------------------------------------------------

    /**
      A key press. A letter fills the next box of the row, BACK empties the last filled one
      and ENTER submits the row (`EnterPressed`); a letter on a full row and BACK on an empty
      one do nothing. Nothing ends the game: keys keep working after a win or a loss.
     */
    method KeyboardButtonHandler(key: Key) returns (outcome: KeyOutcome)
      requires Valid()
      modifies this`row, this`col, this`guessedLetters, this`boxText, this`boxColour, this`keyColours
      ensures Valid()
      ensures outcome == Typed <==> key.Letter? && old(col) < WORD_SIZE
      ensures outcome == Erased <==> key.Back? && old(col) > 0
      ensures outcome == Ignored <==> (key.Letter? && old(col) == WORD_SIZE) || (key.Back? && old(col) == 0)
      ensures outcome == Typed ==>
        && guessedLetters == old(guessedLetters) + [key.name] && col == old(col) + 1 && row == old(row)
        && boxText == old(boxText)[row := old(boxText)[row][old(col) := Some(key.name)]]
        && boxColour == old(boxColour) && keyColours == old(keyColours)
      ensures outcome == Erased ==>
        && guessedLetters == old(guessedLetters)[..old(col) - 1] && col == old(col) - 1 && row == old(row)
        && boxText == old(boxText)[row := old(boxText)[row][col := None]]
        && boxColour == old(boxColour) && keyColours == old(keyColours)
      ensures outcome == Ignored ==> unchanged(this)
      // ENTER: the outcomes and effects of `EnterPressed`
      ensures key.Enter? ==> boxText == old(boxText)
      ensures key.Enter? ==> (outcome == WordNotFinished <==> old(col) != WORD_SIZE)
      ensures key.Enter? ==> (outcome == NotInWordList <==> (old(col) == WORD_SIZE
        && guessesMustBeWords && LowerString(old(guessedLetters)) !in longWordList))
      ensures key.Enter? ==> (outcome == Correct <==> (old(col) == WORD_SIZE
        && !(guessesMustBeWords && LowerString(old(guessedLetters)) !in longWordList)
        && LowerString(old(guessedLetters)) == hiddenWord))
      ensures key.Enter? ==> (outcome in {GuessesUsedUp, NextRow, IndexOutOfRange} <==> (old(col) == WORD_SIZE
        && !(guessesMustBeWords && LowerString(old(guessedLetters)) !in longWordList)
        && LowerString(old(guessedLetters)) != hiddenWord))
      ensures key.Enter? && outcome == IndexOutOfRange ==> |hiddenWord| > WORD_SIZE
      ensures key.Enter? && outcome == GuessesUsedUp ==> old(row) == NUM_GUESSES - 1
      ensures key.Enter? && outcome == NextRow ==> old(row) < NUM_GUESSES - 1
      ensures key.Enter? && outcome in {Correct, GuessesUsedUp, NextRow} ==>
        |hiddenWord| <= WORD_SIZE == |old(guessedLetters)|
      ensures key.Enter? && outcome in {WordNotFinished, NotInWordList, IndexOutOfRange} ==> unchanged(this)
      ensures key.Enter? && outcome in {Correct, GuessesUsedUp, NextRow} ==>
        && boxColour == old(boxColour)[old(row) := Painted(old(boxColour)[old(row)], Verdicts(hiddenWord, LowerString(old(guessedLetters))))]
        && keyColours == KeyboardAfter(hiddenWord, old(guessedLetters), old(keyColours))
      ensures key.Enter? && outcome in {Correct, GuessesUsedUp} ==>
        row == old(row) && col == old(col) && guessedLetters == old(guessedLetters)
      ensures key.Enter? && outcome == NextRow ==> row == old(row) + 1 && col == 0 && guessedLetters == []
      ensures key.Enter? && outcome == Correct ==> boxColour[row] == seq(WORD_SIZE, _ => Some(Green))
      ensures key.Enter? && outcome == Correct ==> forall k :: 0 <= k < |hiddenWord| ==> !IsUpper(hiddenWord[k])
    {
      if col < WORD_SIZE && key.Letter? {
        boxText := boxText[row := boxText[row][col := Some(key.name)]];
        guessedLetters := guessedLetters + [key.name];
        col := col + 1;
        return Typed;
      } else if key.Back? && col > 0 {
        col := col - 1;
        guessedLetters := guessedLetters[..|guessedLetters| - 1];
        boxText := boxText[row := boxText[row][col := None]];
        return Erased;
      } else if key.Enter? {
        outcome := EnterPressed();
        return;
      }
      return Ignored;
    }

    /**
      The ENTER branch of the key handler. A full row that passes the word-list check is
      scored. A correct guess takes precedence over the last-row check; it and a wrong guess
      in the last row leave the cursor where it is, any other wrong guess moves it to the
      start of the next row.
     */
    method EnterPressed() returns (outcome: KeyOutcome)
      requires Valid()
      modifies this`row, this`col, this`guessedLetters, this`boxColour, this`keyColours
      ensures Valid()
      ensures outcome == WordNotFinished <==> old(col) != WORD_SIZE
      ensures outcome == NotInWordList <==> (old(col) == WORD_SIZE
        && guessesMustBeWords && LowerString(old(guessedLetters)) !in longWordList)
      ensures outcome == Correct <==> (old(col) == WORD_SIZE
        && !(guessesMustBeWords && LowerString(old(guessedLetters)) !in longWordList)
        && LowerString(old(guessedLetters)) == hiddenWord)
      ensures outcome in {GuessesUsedUp, NextRow, IndexOutOfRange} <==> (old(col) == WORD_SIZE
        && !(guessesMustBeWords && LowerString(old(guessedLetters)) !in longWordList)
        && LowerString(old(guessedLetters)) != hiddenWord)
      ensures outcome == IndexOutOfRange ==> |hiddenWord| > WORD_SIZE
      ensures outcome == GuessesUsedUp ==> old(row) == NUM_GUESSES - 1 && |hiddenWord| <= WORD_SIZE
      ensures outcome == NextRow ==> old(row) < NUM_GUESSES - 1 && |hiddenWord| <= WORD_SIZE
      // Nothing happens
      ensures outcome in {WordNotFinished, NotInWordList, IndexOutOfRange} ==> unchanged(this)
      // Scoring
      ensures outcome in {Correct, GuessesUsedUp, NextRow} ==>
        && boxColour == old(boxColour)[old(row) := Painted(old(boxColour)[old(row)], Verdicts(hiddenWord, LowerString(old(guessedLetters))))]
        && keyColours == KeyboardAfter(hiddenWord, old(guessedLetters), old(keyColours))
      ensures outcome in {Correct, GuessesUsedUp} ==>
        row == old(row) && col == old(col) && guessedLetters == old(guessedLetters)
      ensures outcome == NextRow ==> row == old(row) + 1 && col == 0 && guessedLetters == []
      // A win paints the whole row green; it needs a hidden word without capitals.
      ensures outcome == Correct ==> boxColour[row] == seq(WORD_SIZE, _ => Some(Green))
      ensures outcome == Correct ==> forall k :: 0 <= k < |hiddenWord| ==> !IsUpper(hiddenWord[k])
    {
      var wordGuessed := LowerString(guessedLetters);
      if col != WORD_SIZE {
        return WordNotFinished;
      } else if guessesMustBeWords && wordGuessed !in longWordList {
        return NotInWordList;
      }
      outcome := ScoreRow();
    }

    /**
      The scoring part of the ENTER branch, for a full row that passed the word-list check:
      the three branches that each call color_change.
     */
    method ScoreRow() returns (outcome: KeyOutcome)
      requires Valid() && col == WORD_SIZE
      modifies this`row, this`col, this`guessedLetters, this`boxColour, this`keyColours
      ensures Valid()
      ensures outcome == Correct <==> LowerString(old(guessedLetters)) == hiddenWord
      ensures outcome in {GuessesUsedUp, NextRow, IndexOutOfRange} <==> LowerString(old(guessedLetters)) != hiddenWord
      ensures outcome == IndexOutOfRange ==> |hiddenWord| > WORD_SIZE && unchanged(this)
      ensures outcome == GuessesUsedUp ==> old(row) == NUM_GUESSES - 1 && |hiddenWord| <= WORD_SIZE
      ensures outcome == NextRow ==> old(row) < NUM_GUESSES - 1 && |hiddenWord| <= WORD_SIZE
      ensures outcome in {Correct, GuessesUsedUp, NextRow} ==>
        && boxColour == old(boxColour)[old(row) := Painted(old(boxColour)[old(row)], Verdicts(hiddenWord, LowerString(old(guessedLetters))))]
        && keyColours == KeyboardAfter(hiddenWord, old(guessedLetters), old(keyColours))
      ensures outcome in {Correct, GuessesUsedUp} ==>
        row == old(row) && col == old(col) && guessedLetters == old(guessedLetters)
      ensures outcome == NextRow ==> row == old(row) + 1 && col == 0 && guessedLetters == []
      ensures outcome == Correct ==> boxColour[row] == seq(WORD_SIZE, _ => Some(Green))
      ensures outcome == Correct ==> forall k :: 0 <= k < |hiddenWord| ==> !IsUpper(hiddenWord[k])
    {
      ghost var h, g := hiddenWord, LowerString(guessedLetters);
      ghost var painted := if |h| <= |g| then Painted(boxColour[row], Verdicts(h, g)) else boxColour[row];
      ScoringKeepsBoard(row, col, guessedLetters, boxText, boxColour, painted);
      if LowerString(guessedLetters) == hiddenWord {
        var crashed := ColourChange(row);
        HiddenWordIsAllGreen(hiddenWord);
        assert painted == seq(WORD_SIZE, _ => Some(Green));
        return Correct;
      } else if row == NUM_GUESSES - 1 {
        var crashed := ColourChange(row);
        if crashed {
          return IndexOutOfRange;
        }
        return GuessesUsedUp;
      } else {
        var crashed := ColourChange(row);
        if crashed {
          return IndexOutOfRange;
        }
        NextRowKeepsBoard(row, guessedLetters, boxText, boxColour);
        row := row + 1;
        col := 0;
        guessedLetters := [];
        return NextRow;
      }
    }

    // -------------------------------------------------------------------------
    // start_button_handler
    // -------------------------------------------------------------------------

    /**
      Starts a game: loads the word lists, blanks the board, then sets the hidden word, either
      the `pick`-th word of the short list (modulo its length, standing for `random.choice`)
      or the text of the entry field. A specified word is checked only after it has become the
      hidden word, so a rejected one stays hidden; a rejection leaves the options enabled and
      the entry as it was. The keyboard colours of an earlier game are kept.
     */
    method StartButtonHandler(shortLines: seq<string>, longLines: seq<string>, pick: nat) returns (outcome: StartOutcome)
      requires Valid()
      modifies this
      ensures Valid()
      ensures shortWordList == old(shortWordList) + Filtered(shortLines)
      ensures longWordList == old(longWordList) + Filtered(longLines)
      ensures boxText == BlankGrid() && boxColour == BlankGrid()
      ensures row == 0 && col == 0 && guessedLetters == []
      ensures keyColours == old(keyColours)
      ensures guessesMustBeWords == old(guessesMustBeWords) && specifyWord == old(specifyWord)
      ensures outcome == EmptyShortList <==> !specifyWord && shortWordList == []
      ensures outcome == IncorrectLength <==> specifyWord && |old(specifiedEntry)| != WORD_SIZE
      ensures outcome == NotAValidWord <==> (specifyWord && |old(specifiedEntry)| == WORD_SIZE
        && old(specifiedEntry) !in longWordList && guessesMustBeWords)
      ensures outcome == EmptyShortList ==> hiddenWord == old(hiddenWord)
      ensures !specifyWord && outcome == Started ==>
        hiddenWord == shortWordList[pick % |shortWordList|] && |hiddenWord| == WORD_SIZE
      ensures specifyWord ==> hiddenWord == old(specifiedEntry)
      ensures outcome == Started ==> !optionsEnabled && |hiddenWord| == WORD_SIZE
      ensures outcome == Started && specifyWord ==> specifiedEntry == ""
      ensures outcome != Started ==> optionsEnabled == old(optionsEnabled) && specifiedEntry == old(specifiedEntry)
      ensures !specifyWord ==> specifiedEntry == old(specifiedEntry)
    {
      WordLists(shortLines, longLines);
      FilteredWordsOk(shortLines);
      FilteredWordsOk(longLines);
      WordsOkAppend(old(shortWordList), Filtered(shortLines));
      WordsOkAppend(old(longWordList), Filtered(longLines));
      LetterFrames();
      BlankBoardOk();
      outcome := ChooseHiddenWord(pick);
    }

    /**
      The second half of start_button_handler: sets the hidden word, either the `pick`-th
      word of the short list (modulo its length) or the text of the entry field, which is
      checked only after it has become the hidden word.
     */
    method ChooseHiddenWord(pick: nat) returns (outcome: StartOutcome)
      modifies this`hiddenWord, this`specifiedEntry, this`optionsEnabled
      ensures outcome == EmptyShortList <==> !specifyWord && shortWordList == []
      ensures outcome == IncorrectLength <==> specifyWord && |old(specifiedEntry)| != WORD_SIZE
      ensures outcome == NotAValidWord <==> (specifyWord && |old(specifiedEntry)| == WORD_SIZE
        && old(specifiedEntry) !in longWordList && guessesMustBeWords)
      ensures outcome == EmptyShortList ==> hiddenWord == old(hiddenWord)
      ensures !specifyWord && outcome == Started ==> hiddenWord == shortWordList[pick % |shortWordList|]
      ensures specifyWord ==> hiddenWord == old(specifiedEntry)
      ensures outcome == Started ==> !optionsEnabled
      ensures outcome == Started && specifyWord ==> specifiedEntry == ""
      ensures outcome != Started ==> optionsEnabled == old(optionsEnabled) && specifiedEntry == old(specifiedEntry)
      ensures !specifyWord ==> specifiedEntry == old(specifiedEntry)
    {
      if !specifyWord {
        if |shortWordList| == 0 {
          return EmptyShortList;
        }
        hiddenWord := shortWordList[pick % |shortWordList|];
      } else {
        hiddenWord := specifiedEntry;
        if |hiddenWord| != WORD_SIZE {
          return IncorrectLength;
        }
        if hiddenWord !in longWordList && guessesMustBeWords {
          return NotAValidWord;
        }
        specifiedEntry := "";
      }
      optionsEnabled := false;
      return Started;
    }
  }
}
