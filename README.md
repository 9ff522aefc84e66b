# Wordy: a verified model of the game logic

Wordy is a Tkinter clone of Wordle, and this project models its game logic in Dafny. The player types letters on an on-screen keyboard into a six-by-five board. ENTER submits a row. Each box of a scored row turns green (right letter, right place), orange (letter elsewhere in the word) or grey, and each key used takes the colour of its box. The Start button loads the word lists, clears the board and picks the hidden word, either at random from the short list or from the "Specify Word" entry.

The model has four modules:

- `Wrappers`: the `Option` type.
- `Text`: the two string functions the game uses, Python's `str.strip()` and `str.lower()`.
- `Evaluation`: how a row is scored. It gives two independent reference definitions:
  - the verdict of each box (`Verdict`): green on an exact match, otherwise orange while the earlier non-matching copies of the letter have not used up the copies the exact matches left over, otherwise grey;
  - the keyboard after a guess (`KeyboardAfter`).

  It also holds a ghost replay (`Run` of `Step`) of the loop in `color_change`. The theorem `ColourChangeMeetsReference` proves that this loop, run over the order `get_order_of_letters` builds, paints exactly the reference verdicts and leaves exactly the reference keyboard.
- `Game`: the class `Wordy`. Its fields are:
  - the cursor (`row`, `col`) and the typed letters (`guessedLetters`);
  - the text and colour of every box;
  - the key colours;
  - the hidden word and the two word lists;
  - the two option checkboxes, the entry field, and whether the options are still enabled.

  Its methods are the handlers: `KeyboardButtonHandler` (with `EnterPressed` and `ScoreRow` for ENTER), `StartButtonHandler` (with `ChooseHiddenWord`), and the helpers they call (`LetterFrames`, `WordLists`, `GetOrderOfLetters`, `ColourChange`, `PaintInOrder`, `PaintBox`). `Valid()` is the class invariant every handler keeps:
  - the cursor is on the board;
  - `col` is the number of typed letters;
  - the cursor's row shows exactly those letters;
  - the rows below are blank;
  - every loaded word is a stripped five-letter word.

The model follows the code where a reader might expect standard Wordle behaviour:

- **No terminal state.** A win or a last-row loss leaves the cursor where it is (`ScoreRow` with outcome `Correct` or `GuessesUsedUp`), so BACK and letters keep working afterwards.
- **Keyboard colours can go down.** Exact matches are scored first, so a later grey or orange box of the same key overwrites a green one (`KeyboardDowngrades`). Start does not reset the keyboard colours.
- **Casing.** Guesses are lower-cased. A specified hidden word is not, so a hidden word with a capital letter can never be guessed (`ScoreRow`'s last ensures, `Text.LowerStringMissesUpper`).
- **Rejected words stay hidden.** A rejected specified word has already become the hidden word. If it is longer than five letters, the next complete guess that passes the word-list check makes `get_order_of_letters` index past the end of the guess; this is the `IndexOutOfRange` outcome.
- **Lists only grow.** `word_lists` never clears the lists, so every Start appends the files' words once more.

## Model

| member | source | states |
|---|---|---|
| Text.StripTrims | Wordy.py:301-304 | the stripped line has no surrounding whitespace and is a slice of the line with only whitespace cut on either side |
| Text.Strip | Wordy.py:302-309 | `str.strip()`: the line with its leading and then its trailing whitespace removed |
| Text.Lower | Wordy.py:517 | lower-casing leaves no capital, keeps every other character and shifts A-Z onto a-z |
| Text.LowerString | Wordy.py:517 | `''.join(letters).lower()`: every character of the typed letters lower-cased in place (also the guessed word rebuilt at line 602) |
| Text.LowerStringMissesUpper | Wordy.py:528 | a lower-cased guess never equals a word that holds a capital letter |
| Evaluation.Order | Wordy.py:596-615 | the order lists `len(hidden_word)` positions, each a position of the hidden word |
| Evaluation.OrderIsPermutation | Wordy.py:606-612 | the order holds every position once; exact matches come before all other positions; exact matches are in decreasing order and the others in increasing order |
| Evaluation.ExactsShape | Wordy.py:607-609 | the front-inserted positions are exactly the exact matches, in decreasing order |
| Evaluation.MissesShape | Wordy.py:610-612 | the appended positions are exactly the non-matches, in increasing order |
| Evaluation.Verdict | Wordy.py:561-592 | the reference colour of box `j`: green on an exact match; orange while fewer earlier non-matching copies of its letter have been counted than the copies its exact matches leave over; grey otherwise |
| Evaluation.Verdicts | Wordy.py:559-592 | the reference colours of a whole row, one `Verdict` per position of the hidden word |
| Evaluation.KeyColour | Wordy.py:559-592 | the reference colour of a typed key: the verdict of its last non-matching position if it has one, otherwise green |
| Evaluation.KeyboardAfter | Wordy.py:559-592 | the reference keyboard after a guess: every key typed in the scored positions takes `KeyColour`, every other key keeps its colour |
| Evaluation.Exhausted | Wordy.py:573-582 | the letter is not an exact match, occurs in the hidden word and `letters_guessed` already holds as many copies of it as the hidden word, so the box turns grey without being counted |
| Evaluation.StepColour | Wordy.py:561-592 | the colour the loop's branches give one box: green, grey when exhausted, orange when the letter is in the word, grey otherwise |
| Evaluation.Step | Wordy.py:561-594 | one iteration of the loop: the box and its key take `StepColour`, and the letter is appended to `letters_guessed` unless the box was exhausted |
| Evaluation.Run | Wordy.py:559-594 | the loop run over a sequence of positions, in that order, from an initial row, keyboard and `letters_guessed` |
| Evaluation.AbsentLetterIsGrey | Wordy.py:588-592 | a letter that does not occur in the hidden word is grey |
| Evaluation.AvailableNonNegative | Wordy.py:568-571 | exact matches never use more copies of a letter than the hidden word has |
| Evaluation.GreensAreMatches | Wordy.py:568-571 | there are exactly as many green boxes as exact matches |
| Evaluation.OrangeCountIsCapped | Wordy.py:573-586 | the orange boxes of a letter number the fewer of its non-matching occurrences and its copies left over after the exact matches |
| Evaluation.LetterBudget | Wordy.py:574-594 | green plus orange boxes of a letter are its exact matches plus the capped non-matches, hence never more than its copies in the hidden word |
| Evaluation.HiddenWordIsAllGreen | Wordy.py:528-529 | guessing the hidden word makes every verdict green |
| Evaluation.LastMissIsLast | Wordy.py:559-592 | the key's last non-matching position is a non-matching position of that key with none after it, or there is none |
| Evaluation.KeyboardAfterAt | Wordy.py:559-592 | a typed key gets its reference colour; a key not typed keeps its colour or its absence |
| Evaluation.ExactPhase | Wordy.py:568-571 | visiting exact matches paints exactly them green and appends their letters |
| Evaluation.MissPhase | Wordy.py:573-594 | visiting the non-matches in increasing order paints each with its verdict and keeps the per-letter count of `letters_guessed` |
| Evaluation.KeysFollowLastWrite | Wordy.py:559-592 | every key painted in the loop has the colour of the last box visited for it |
| Evaluation.UntypedKeysKept | Wordy.py:559-592 | a key typed at no visited position keeps its colour or its absence |
| Evaluation.ColourChangeMeetsReference | Wordy.py:547-594 | the loop of color_change over get_order_of_letters paints the scored boxes with the reference verdicts and leaves the keyboard as the reference says |
| Evaluation.AppleAppla | Wordy.py:573-586 | `appla` against `apple` scores green, green, green, green, grey |
| Evaluation.SpeedDeeds | Wordy.py:573-592 | `deeds` against `speed` scores orange, orange, green, grey, orange |
| Evaluation.KeyboardDowngrades | Wordy.py:568-592 | a key whose first box is green ends grey when a later box of it is grey |
| Game.FilteredWordsOk | Wordy.py:301-311 | every loaded word has five letters and no surrounding whitespace |
| Game.Filtered | Wordy.py:301-304 | the words a file contributes: each line stripped, kept when five letters long, in file order |
| Game.FilteredWordsSound | Wordy.py:301-311 | every loaded word comes from a line of the file that strips to it |
| Game.FilteredWordsComplete | Wordy.py:301-311 | every line that strips to a five-letter word has that word loaded |
| Game.BlankBoardOk | Wordy.py:341-350 | the freshly built board with the cursor at its first box is well formed |
| Game.ScoringKeepsBoard | Wordy.py:547-594 | painting the cursor's row keeps the board well formed |
| Game.NextRowKeepsBoard | Wordy.py:540-544 | moving to the start of the next row after a full row keeps the board well formed |
| Game.Wordy.constructor | Wordy.py:115-137 | the window opens on a blank board with the cursor at the first box, no words, no hidden word, guesses that must be words, no specified word and the options enabled |
| Game.Wordy.ToggleGuessesMustBeWords | Wordy.py:181-186 | the checkbox flips unless a started game has disabled it |
| Game.Wordy.ToggleSpecifyWord | Wordy.py:195-199 | the checkbox flips unless a started game has disabled it |
| Game.Wordy.EditSpecifiedEntry | Wordy.py:202-204 | the entry field takes the text typed into it |
| Game.Wordy.LetterFrames | Wordy.py:336-350 | the board is six rows of five empty, uncoloured boxes; the cursor is at row 0, col 0 and the buffer is empty |
| Game.Wordy.WordLists | Wordy.py:296-311 | each list gains the filtered lines of its file, appended in file order without clearing |
| Game.Wordy.GetOrderOfLetters | Wordy.py:596-615 | returns the order `Order` when the guess is at least as long as the hidden word, and raises exactly when it is shorter |
| Game.Wordy.ColourChange | Wordy.py:547-594 | raises, changing nothing, exactly when the hidden word is longer than the guess; otherwise paints the row's scored boxes with the reference verdicts and sets the keyboard to the reference |
| Game.Wordy.PaintInOrder | Wordy.py:559-594 | the loop paints the row and keyboard exactly as the replay `Run` over the given order |
| Game.Wordy.PaintBox | Wordy.py:561-594 | one visit paints the box and its key with the colour of the loop's branch and appends the letter unless its budget is used up |
| Game.Wordy.KeyboardButtonHandler | Wordy.py:497-545 | a letter on a non-full row fills the next box and appends; BACK on a non-empty row empties the last box and pops; either is a no-op otherwise; ENTER has every outcome and effect `EnterPressed` states (the no-op rejections, the win's precedence, the kept cursor after a win or a last-row loss, the move to the next row, the reference row and keyboard); the board invariant holds throughout |
| Game.Wordy.EnterPressed | Wordy.py:514-545 | ENTER changes nothing on an unfinished row or on a word missing from the long list when guesses must be words; otherwise the row is scored as `ScoreRow` says |
| Game.Wordy.ScoreRow | Wordy.py:527-544 | the win branch is taken exactly when the guess is the hidden word and takes precedence over the last-row branch. The row is painted with the reference verdicts and the keyboard set to the reference. A win or a last-row loss leaves row, col and buffer untouched, and a win paints the row all green. Any other guess moves to the start of the next row with an empty buffer. A hidden word longer than five raises and changes nothing |
| Game.Wordy.StartButtonHandler | Wordy.py:238-281 | both lists grow by their filtered files, and the board and cursor are reset before any check. The hidden word becomes the picked word or the entry text, and keyboard colours are kept. A specified word of the wrong length, or one missing from the long list when guesses must be words, is rejected with the options still enabled and the entry kept, though it has already become the hidden word |
| Game.Wordy.ChooseHiddenWord | Wordy.py:247-278 | the hidden word is the picked short-list word or the entry text; rejection cases as above; only a successful start clears the entry and disables the options |

## Left out

- Widgets, layout, fonts, the text colour set to white on scored boxes and `mainloop`. The model keeps each box's letter and colour and each key's colour as values.
- File I/O in `word_lists`. The lines of the two files are parameters of `StartButtonHandler`.
- `random.choice`. It becomes the parameter `pick`, and the chosen word is `shortWordList[pick % |shortWordList|]`. An empty short list makes `random.choice` raise; this is the outcome `EmptyShortList`, after the lists have been loaded and the board reset.
- Exceptions are modelled as outcomes that stop the handler at the point of the raise (`IndexOutOfRange`, `EmptyShortList`). Tk's reporting of the exception is not modelled.
- Message display, its timer and `clear_message`, and the unused wait-time constant. The message shown is identified by the handler's outcome.
- `print` diagnostics, `parameter_options_display`, `show_word_handler`, the quit button and the hard-mode checkbox, which has no behaviour.
- Scratch attributes:
  - `word_guessed`, `guessed_word`, `order_of_guesses` and `letters_guessed` are locals of the methods that set them;
  - the values they are left holding after a handler returns are not modelled.
- The keyboard map holds only the keys a guess has painted. A key absent from it shows the initial button colour.
- `Text.Lower`: covers the ASCII capitals only, since the keyboard produces only `A`-`Z`. Python's Unicode case mapping is not modelled.
- `Text.Strip`: treats as whitespace the ASCII whitespace characters, `\x1c`-`\x1f`, NEL and NO-BREAK SPACE. The other Unicode spaces Python's `str.strip()` removes are not modelled.
