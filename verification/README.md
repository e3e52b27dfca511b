# Word-scramble game engine in Dafny

This project models the game-state engine of a word-clicking game. The engine
scatters a target word's letters as tiles over a 15 x 11 board. The player
clicks them left to right. A correct letter earns 50 points, or 100 when it
finishes the word. A letter clicked out of order costs 25. Each word has a
960-tick countdown. A hint button at cell (14, 10) highlights the next
letter, and the game ends at 2500 points. The model also covers the two
board/screen coordinate conversions of the view and its letter-sprite
lookup.

Modules:

- `Wrappers`: `Option`, used where the random stream runs out or a sprite
  lookup throws.
- `Board`: positions and the grid. Also holds the hint-button cell,
  `get_rand_posn_`, `std::count`, `check_duplicates_`, and what a legal tile
  layout is (distinct cells on the grid, never the hint button).
- `Positions`: `get_many_rand_posns_`. It runs the accept/reject loop over a
  finite stream of raw `rand()` draws and is compared with an unbounded
  reference filter. The main result is an if-and-only-if for when the
  generator succeeds.
- `Model`: the state record `Game` and one pure function per engine
  operation: `CheckHint`, `UpdatePoints`, `LoadNewWord`, `Click` and its two
  branches, `OnFrame`, and the `Model(dictionary)` constructor.
- `Play`: properties of several steps. These cover solving a whole word,
  frames counting down, and following a hint. It also replays the engine's
  test scenarios.
- `View`: `board_to_screen`, `screen_to_board` and the letter-sprite index.

Randomness is an input. A `Reload(pick, draws)` value carries the `rand()`
result that picks the word (`pick % |bank|`) and the raw draws the position
sampler reads. `Feeds(bank, next)` says the bank is non-empty and the stream
holds enough acceptable draws. The source keeps drawing forever.

Time: `time` is an `int` and `dt` and `elapsed` are exact `real`s. The
source's `time_remaining_ -= dt` converts a double back into an int, so the
model stores `Trunc(time - dt)`, which truncates toward zero. The controller
passes `dt` in seconds. Because of the truncation, every frame shorter than
one second takes exactly one tick off a positive timer (`Play.FrameTicks`);
once the game is over the timer runs down to 0 and, with frames shorter
than a second, stays there. A round
therefore lasts 960 frames, which is 16 s at 60 frames/s, as the header
comment intends.

Where the prose description of the game and the code differ, the model
follows the code:

- Clearing the wrong-tile highlight resets `wrongPosn` to (0, 0) and
  `elapsed` to 0 but leaves `isCorrect` false. The highlight timer keeps
  cycling until the next click.
- A new wrong click does not restart `elapsed`.
- The header comment of `load_new_word_` says it takes the "next" word. The
  code takes the word at a random index.
- The header comment of `update_points_` (182331514/model.hxx:164-165) says
  the game is over once points are greater than 2500. The code
  (182331514/model.cxx:177) already clears the round at exactly 2500
  (`Play.GameOverScenario`).

## Model

| member | source | states |
|---|---|---|
| Board.RandPosn | 182331514/model.cxx:121-127 | a raw draw always lands on the 15 x 11 grid, and every grid cell is the result of some draw |
| Board.Count | 182331514/model.cxx:137 | `std::count` is the multiplicity of the position in the sequence |
| Board.CheckDuplicates | 182331514/model.cxx:129-138 | true exactly when the position already occurs in the vector |
| Positions.Sample | 182331514/model.cxx:143-154 | each step of the accept/reject loop keeps the accepted cells distinct, on the grid and off the reserved cell; on success it returns exactly n cells that extend what was accepted before |
| Positions.GetManyRandPosns | 182331514/model.cxx:140-155 | when it returns, there is one cell per letter of w, pairwise distinct, inside the grid and never the reserved cell |
| Positions.Accepted | 182331514/model.cxx:145-152 | the filter run over the whole stream yields a legal layout that extends the accepted prefix |
| Positions.SampleIsPrefix | 182331514/model.cxx:145-152 | the sampler stops at the first n cells the unbounded filter accepts, and reports failure exactly when fewer than n exist |
| Positions.AcceptedElements | 182331514/model.cxx:145-152 | the filter keeps exactly the drawn cells other than the reserved one: duplicates and the hint cell are rejected, nothing else is |
| Positions.GeneratorSucceedsIff | 182331514/model.cxx:140-155 | the generator succeeds if and only if the stream holds at least one distinct non-reserved cell per letter, and it returns only drawn cells |
| Positions.SampleFollowsDraws | 182331514/model.cxx:145-152 | draws whose cells form a legal layout are accepted one by one, in order |
| Board.LayoutFits | 182331514/model.cxx:145-152 | no legal layout holds more than 164 tiles, the 15 x 11 cells minus the hint button |
| Positions.TooLongNeverPlaced | 182331514/model.cxx:145-152 | a word longer than 164 letters never gets a layout, whatever the random stream |
| Positions.LayoutReachable | 182331514/model.hxx:138-151 | every legal layout of the right length is a possible output of the generator |
| Model.Trunc | 182331514/model.cxx:75 | storing `time - dt` into the int timer truncates toward zero |
| Model.LoadNewWord | 182331514/model.cxx:157-172 | the new round's word is in the bank at index `rand() % size`, its layout is exactly what the position generator returns for that word and stream, legal with one cell per letter, and the timer is back at 960; score, bank and hint/feedback fields are unchanged |
| Model.UpdatePoints | 182331514/model.cxx:174-193 | while below 2500 a correct click earns 100 if it emptied the positions and 50 otherwise, and a wrong click costs 25 without touching the round; at 2500 or more, points stay and word and positions are cleared; the invariants are kept |
| Model.CheckHint | 182331514/model.cxx:195-208 | after the check the hint is on exactly when the click hit the hint button, it then points at the first remaining position, and nothing else changes |
| Model.DropFirst | 182331514/model.cxx:101 | `erase(0, 1)` is undone by putting the erased first letter back in front; an empty word stays empty |
| Model.FromBankDropFirst | 182331514/model.cxx:99-101 | solving a letter keeps the word a suffix of the bank word it came from |
| Model.NextLetter | 182331514/model.cxx:99-107 | the correct-letter branch removes the head of word and positions and scores +50, or +100 on the last letter; it loads a new word only when the positions emptied and the score is still below 2500; at 2500 it clears the round |
| Model.WrongLetter | 182331514/model.cxx:109-113 | the wrong-letter branch marks the click incorrect and records p; it costs 25 and keeps the round below 2500, and clears the round at 2500 or more |
| Model.Click | 182331514/model.cxx:93-114 | every click turns the hint on iff it hit the hint button, and then the hint points at the first remaining position; word and positions stay equal in length and legal; the wrong-tile timer is never restarted; a new round starts only after a click that finishes the word below the goal |
| Model.ClickNextLetter | 182331514/model.cxx:99-107 | clicking the first remaining position is correct: it removes exactly the head of word and positions and scores +50, or +100 when it finishes the word; a fresh round from the bank follows only while the score is still below 2500 |
| Model.ClickLaterLetter | 182331514/model.cxx:109-113 | a click is wrong iff it hits a remaining position other than the first; the tile is flagged, and below the goal the click costs 25 and leaves the round unchanged |
| Model.ClickAfterGoal | 182331514/model.cxx:189-192 | at 2500 points or more a scoring click keeps the score, clears word and positions, and starts no new round |
| Model.ClickElsewhere | 182331514/model.hxx:84-85 | a click on no remaining position changes neither round nor score; a hint-button click never advances a legal round |
| Model.OnFrame | 182331514/model.cxx:72-91 | the timer becomes the truncated difference; on timeout below 2500 a fresh round from the bank starts at 960; points never change; an active highlight ages by dt and is cleared to (0, 0) with age 0 once it reaches 2.0, with `isCorrect` left false |
| Model.Construct | 182331514/model.cxx:52-65 | the first state has a word from the bank with a legal layout off the hint button, 0 points, a full timer, hint off and no highlight |
| Model.ConstructAsWritten | 182331514/model.cxx:52-65 | the constructor as written only keeps the first layout off whatever value the not-yet-initialised hint-button field holds |
| Model.ConstructAsWrittenCoversHintButton | 182331514/model.cxx:57-60 | with a stale value of (0, 0) and the draw (14, 10), the first letter is placed on the hint button, so the state is not well formed |
| Play.Solve | 182331514/model.cxx:93-114 | clicking the next letter until the round ends keeps the invariants and never lowers the score |
| Play.SolveScores | 182331514/model.hxx:162-168 | solving an n-letter word without mistakes below the goal earns 50(n-1)+100 points and ends in a fresh round from the bank with a full timer |
| Play.Frames | 182331514/model.cxx:72-91 | any number of frames leaves points, bank, hint flag and `isCorrect` unchanged and keeps the invariants |
| Play.FrameStep | 182331514/model.cxx:75-79 | a short frame on a timer of at least 2 takes one tick off and loads nothing |
| Play.OneTick | 182331514/model.cxx:75 | a frame shorter than one second takes exactly one tick off a positive timer |
| Play.FrameTicks | 182331514/model.hxx:96-99 | k short frames lower the timer by exactly k and keep the round |
| Play.RoundTimesOut | 182331514/model.hxx:96-99 | a round lasts exactly its remaining ticks in short frames; the frame that uses up the last tick loads a fresh round at 960 |
| Play.FollowingHintScores | 182331514/model_test.cxx:221-235 | the hint shows the next letter without changing the round or the score, and clicking it is a correct, scoring click that turns the hint off |
| Play.CatsScenario | 182331514/model_test.cxx:99-136 | "cats" scores 50, 100, 150 and then 250, and a new word from the bank follows |
| Play.AppleScenario | 182331514/model_test.cxx:49-70 | the three clicks of the first test: the next letter gives "pple" and 50 points; a later tile gives 25 points and flags that tile with the round kept; an empty cell changes nothing but the correctness flag |
| Play.TimerScenario | 182331514/model_test.cxx:154-185 | letting the timer run out reloads a word with a full timer; 60 units later the timer reads 900 |
| Play.GameOverScenario | 182331514/model_test.cxx:266-274 | at 2500 points a letter click clears word and positions and starts no new round |
| View.Cell | 182331514/view.cxx:71 | int division by the tile size truncates toward zero: a non-negative pixel lies in [50c, 50c + 50) |
| View.BoardToScreen | 182331514/view.cxx:62-66 | every grid tile drawn at its converted corner fits inside the 800 x 600 window |
| View.ScreenToBoard | 182331514/view.cxx:68-72 | non-negative pixels map to non-negative board positions |
| View.BoardScreenRoundTrip | 182331514/view.cxx:62-72 | converting a board position to the screen and back gives the same position |
| View.ScreenInsideTile | 182331514/view.cxx:62-72 | a non-negative pixel lies inside the 50 x 50 tile of the board position it converts to |
| View.LetterSprite | 182331514/view.cxx:116-117 | the sprite index `c - 'a'` exists exactly for 'a'..'z' and is below 26; any other character makes `.at` throw |
| View.DrawnLettersHaveSprites | 182331514/view.cxx:50-53 | in a reachable state every drawn tile index reads an existing letter, and with a lower-case dictionary the sprite lookup never throws |

## Left out

- The default constructor `Model()` (182331514/model.cxx:18-49) reads the dictionary from a resource file. That is I/O. The bank is a parameter, and `Feeds` requires it to be non-empty because `rand() % word_bank_.size()` is undefined for an empty bank.
- `rand()` itself. Its results are inputs (`Reload`). Termination of the unbounded retry loop is not modelled. `Feeds` instead requires a finite stream with enough acceptable draws. The modulo bias of `rand() % n` is not modelled either.
- OnFrame: `dt` and `change_in_time_` are exact reals. Double rounding and out-of-range double-to-int conversion are not modelled.
- Test-only mutators `set_word`, `set_word_posns`, `set_points`, `set_time_remaining`, `set_is_correct` and `set_word_bank` (182331514/model.cxx:293-344). They exist to break the invariants on purpose. The scenario lemmas build such states directly instead. `add_time_remaining` (in the same range) is not test-only: it is the controller's +200 key, left out with the controller.
- Click: a click when no positions remain reads `word_posns_[0]` of an empty vector (182331514/model.cxx:99), which is undefined. This happens after a finishing click whose +100 takes the score from 2400-2499 to 2500 or more (the positions empty and nothing reloads), after any later game-over cut, and also below the goal once a round has loaded an empty word from the bank, for which 182331514/model.cxx:166-171 builds no positions. `Click` therefore requires a non-empty position list.
- Game: `points_` and `time_remaining_` are 32-bit `int`s (182331514/model.hxx:99, :107). The model uses unbounded integers, so signed overflow, which is undefined in C++, is not modelled.
- Feeds: a word longer than 164 letters makes `get_many_rand_posns_` (182331514/model.cxx:145-152) loop forever whatever `rand()` returns, since only 164 cells are free. `Feeds` cannot hold for such a word (`Positions.TooLongNeverPlaced`), so the model leaves a bank that picks one without a next state.
- The read-only accessors (182331514/model.cxx:215-285) return fields of the state record.
- Everything else in the view: sprites, fonts, text, audio, the timer and points display. These are calls into the ge211 framework.
- The controller (182331514/controller.cxx). `on_mouse_down` is `Click` applied to `ScreenToBoard` of the pixel. `on_key` adds 200 to the timer through `add_time_remaining`.
- Characters are Dafny `char`s rather than C++ `char` bytes. The sprite lookup compares code points.

## Findings

| source | as written | input that shows it | evidently intended | confidence | as-written member | corrected member |
|---|---|---|---|---|---|---|
| 182331514/model.cxx:52-65 | The constructor `Model(dictionary)` builds `word_posns_` in its member-initialiser list. Members initialise in declaration order (182331514/model.hxx:105 before :109). So `get_many_rand_posns_` compares draws with `hint_button_posn_` before that member is initialised. | dictionary {"a"}; the first `rand()` result picks the word; the second and third are 14 and 10; the uninitialised field holds anything other than (14, 10) | the first round keeps clear of the hint button, as every later round does | medium; not executed | Model.ConstructAsWritten, Model.ConstructAsWrittenCoversHintButton | Model.Construct |
