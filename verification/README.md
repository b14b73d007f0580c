# Tailek digit-guessing game engine in Dafny

Tailek is a Mastermind-style game. Every seated player holds a secret of
`digitCount` digits, and the players take turns guessing each other's
secrets. This project models the engine behind the top-level component
and its three input screens:

- **Scoring** (`Scoring`): the two-pass count of digits in the right
  place (`correct`) and of digits present elsewhere (`misplaced`). Consumed
  positions are overwritten with the sentinels `'C'` and `'M'`. It is
  proved equal to the standard Mastermind score: the number of agreeing
  positions, and the multiset overlap of the remaining digits.
- **Turn rotation** (`Rotation`): `calculateNextTurn`, a round-robin with
  elimination. The target stays fixed while every other active player
  guesses once, in seating order. Then the target moves to the next active
  seat, cyclically, and the first active non-target seat starts the new
  round. The `do … while` target scan is a recursive function with fuel.
  Its precondition, that an active seat lies within reach, is the
  termination argument. The "at least two active players" guard
  establishes it.
- **The game transitions** (`App`):
  - submitting a guess: the guard, scoring, the history update, and either
    game over with titles or the next turn;
  - the turn timeout, which is a pass;
  - starting a game from the lobby;
  - seating the players once the local secret is chosen.

  `PlayingInvariant` is proved to be established by setup and kept by
  every submit and timeout. The invariant says: distinct ids, well-formed
  secrets, at least two players left, and a current guesser and target
  that are distinct and both still in the game.
- **Titles** (`Titles`): the game-over titles. The winner gets the drawn
  winning title. Every other player, in seating order, takes the next title
  popped from the shuffled losing pool, or the fallback title.
- **Digit entry** (`DigitEntry`): the numpad buffer shared by the
  secret-entry and guessing screens. It fills up to `digitCount` digits and
  backspace drops the last one. The OK button is disabled until the buffer
  is full, so OK always hands the full buffer on. The handlers' "enter all
  digits" error is modelled, but no numpad press can reach it.
- **Lobby** (`Lobby`): the host's clamped setting cards, the turn-time
  buttons and the start-button guard.
- **Worked examples** (`TurnExamples`): concrete rotations on a four-seat
  table.

Randomness is a parameter everywhere: the digit draws of
`generateNumber`, the shuffled copy of the losing titles, and the index
drawn into the winning titles. Players are an immutable `seq<Player>`.
JavaScript's `null` and `undefined` become `Option`. Digits are `char`.

Some of what the code does is easy to misread. The model follows the code
as written:

- `handleSubmitGuess` checks neither that the guesser is the current
  player nor that the game is in progress. `SubmitGuess` accepts any seated
  guesser against any seated, unfound target, as the code does.
- A turn round goes through every eligible guesser in seating order. With
  seats A, B, C, D and target B, the order is A, then C, then D. D, not C,
  ends the round, and C becomes the next target (`TurnExamples.FirstRound`,
  `TurnExamples.SecondRound`).
- When the timeout's rotation finds at most one player left, the code
  leaves the state unchanged. The game does not move to game over.
- `handleStartGame` seats only the first human of the lobby. Any other
  human is dropped. A lobby of two humans and no bots therefore starts a
  game with one seat, whose target is the local player itself.
  `SetupEstablishesInvariant` requires at least one bot for this reason.

## Model

| member | source | states |
|---|---|---|
| `Scoring.Score` | App.tsx:130-153 | Correct plus misplaced never exceeds the guess length. `correct` equals the length exactly when the guess equals the secret, i.e. `playerFound`. |
| `Scoring.ScoreIsReference` | App.tsx:130-150 | For digit strings, `correct` is the number of agreeing positions. `misplaced` is the size of the multiset intersection of the digits at the other positions of secret and guess. No digit is counted twice, whatever repeats. |
| `Scoring.Pass2` | App.tsx:143-150 | Pass 2 changes only secret positions it overwrites with `'M'`, each for a guess digit left over by pass 1. The number of new `'M'` marks equals the misplaced count, so each secret position is consumed at most once. |
| `Scoring.MarkExact` | App.tsx:135-141 | Pass 1 turns every position where secret and guess agree into `'C'` and leaves every other position as it was. |
| `Scoring.ExactCount` | App.tsx:135-141 | The pass-1 count is at most the length, and equals it exactly when the two arrays agree everywhere. |
| `Scoring.ExactCountIsPositions` | App.tsx:135-141 | The pass-1 count is the number of positions where secret and guess agree. |
| `Scoring.Unconsumed` | App.tsx:144 | Pass 2 skips every entry pass 1 marked `'C'`. What remains holds no `'C'` and only entries of the guess. |
| `Scoring.UnconsumedCount` | App.tsx:135-144 | For a digit guess, the entries pass 2 looks at are exactly the guess digits at positions that disagree with the secret. |
| `Types.ActiveIds` | App.tsx:30-34 | An id is in the active list exactly when some seated player with that id is not found. |
| `Types.IndexOf` | App.tsx:42 | `indexOf`: -1 exactly when the value is absent, otherwise the first position holding it. |
| `Types.SeatOf` | App.tsx:50 | `findIndex` by id: -1 exactly when no seat holds the id, otherwise the first seat that does. |
| `Types.FindPlayer` | App.tsx:126-127 | `find` by id: none exactly when no seat holds the id, otherwise the first seated player with that id. |
| `Types.SameSeatingLists` | App.tsx:30-39 | Rosters with the same ids and found flags have the same id list and active list. |
| `Rotation.EligibleMembers` | App.tsx:37-39 | The guesser list for a target (`EligibleIds`) holds exactly the seated ids that are active and are not the target. |
| `Rotation.ScanNextTarget` | App.tsx:50-59 | The scan stops at a seat whose id is active and is not the "no target yet" value -1. That seat is the one reached after k steps of `(i + 1) % n`, for some 1 ≤ k ≤ fuel, and no earlier step hit such a seat. |
| `TurnExamples.ScanSkipsSentinel` | App.tsx:51-58 | An active seat whose id is -1 does not stop the scan: the scan passes over it to the next active seat. |
| `Rotation.ScanPossible` | App.tsx:30-33 | With at least two active players, an active seat lies within `allPlayers.length` steps of any starting seat, so the scan terminates. |
| `Rotation.NewRoundTurn` | App.tsx:48-68 | The new target and the first guesser of the new round are distinct, both are unfound seated players, and the target is never -1. |
| `Rotation.CalculateNextTurn` | App.tsx:24-76 | `null` exactly when at most one player is unfound. Otherwise the next guesser is unfound and differs from the next target. The next target is unfound whenever the last target was still in the game or was just found. |
| `Rotation.RoundOverIffLastSeat` | App.tsx:41-47 | The round is over (the last guesser is the last entry of the list) exactly when no eligible seat follows the last guesser's seat. |
| `Rotation.ContinueRound` | App.tsx:69-74 | When the round goes on (`NextInRound`), the target is unchanged. The next guesser is the first eligible seat after the last guesser's seat, or the first eligible seat when the last guesser is not in the list. |
| `Rotation.NewRound` | App.tsx:48-66 | When the round ends, the new target is the first unfound seat strictly after the old target's seat, cyclically and within `allPlayers.length` steps, passing over a seat whose id is -1. The target is never -1. The new guesser is the first unfound seat other than the new target. |
| `Rotation.CalculateNextTurnSameSeating` | App.tsx:24-76 | The rotation depends only on ids and found flags. Histories, secrets and titles do not change its answer. |
| `Rotation.NewRoundSameSeating` | App.tsx:48-68 | The new-round pair depends only on ids and found flags. |
| `Rotation.ScanSameSeating` | App.tsx:54-59 | The target scan depends only on the ids at each seat. |
| `Rotation.EligibleFirst` | App.tsx:62-66 | The first entry of the guesser list sits at the first seat that is active and not the target. |
| `Rotation.EligibleNext` | App.tsx:72 | Entry k+1 of the guesser list sits at the next active non-target seat after entry k's seat. |
| `Rotation.EligibleLast` | App.tsx:45 | No active non-target seat follows the seat of the list's last entry. |
| `Rotation.InCycleIsEligible` | App.tsx:37-39 | An id is in the guesser list exactly when it is seated and its seat is unfound and not the target. |
| `Titles.WinningTitle` | App.tsx:168 | The drawn winning title is an entry of the list exactly when the drawn index is in range. |
| `Titles.AssignTitlesRetitles` | App.tsx:166-171 | Handing out titles changes nothing but the titles. |
| `Titles.AssignTitlesAt` | App.tsx:165-171 | The winner's seat gets the winning title. The k-th loser in seating order gets the k-th title from the end of the shuffled pool (`AssignTitles` with `LosingTitle`), or the fallback once the pool is used up or the entry is empty. |
| `Titles.AssignTitlesAll` | App.tsx:165-171 | The per-seat statement of `AssignTitlesAt`, for every seat at once. |
| `Titles.TitlesNotReused` | App.tsx:165-170 | With a pool of distinct titles, two different losers never share a title other than the fallback. |
| `Titles.LosersBeforeGrows` | App.tsx:170 | Every loser pops a title, so a later loser's rank is strictly higher. |
| `App.GenerateNumber` | App.tsx:13-20 | `count` digit characters, the i-th being the i-th draw. |
| `App.FirstUnfound` | App.tsx:163 | `find(p => !p.isFound)`: none exactly when everyone is found, otherwise the first unfound player. |
| `App.RecordGuess` | App.tsx:155-157 | The target's entry gains the guess and its found flag is or-ed with the outcome. Every other entry is unchanged. |
| `App.FinalWinner` | App.tsx:161-163 | The first player still unfound after the guess, or else the first unfound before it. It is always a seated player. |
| `App.EndGame` | App.tsx:161-182 | Phase becomes game over. Only titles change. The winner is present exactly when a final winner exists. The winner is the titled copy of the final winner and carries the drawn winning title. Every other player carries their losing title in seating order. |
| `App.SubmitGuess` | App.tsx:124-128 | A call whose target is missing or found, or whose guesser is missing, changes nothing. An accepted call is the scored update. Settings and the roster size never change. |
| `App.ScoredGuess` | App.tsx:130-188 | An accepted guess leaves settings and the roster size alone. The final roster is the recorded roster, up to titles. |
| `App.Rotate` | App.tsx:185-189 | While the game goes on, the recorded roster is kept and the phase and winner are unchanged. |
| `App.RecordKeepsSeats` | App.tsx:155-157 | Recording a guess keeps every seat's id, so ids stay distinct. |
| `App.NewEntryMeaning` | App.tsx:152-153 | The new history entry records the guess, the guesser's id and name, and the reference score against the target's secret. The target is found exactly when the guess equals its secret. |
| `App.RecordAtSeat` | App.tsx:155-157 | With distinct ids, recording touches only the target's seat. |
| `App.MissKeepsSeating` | App.tsx:155-157 | A guess that misses leaves every seat's id and found flag as they were. |
| `App.SubmitRecordsGuess` | App.tsx:152-159 | An accepted guess appends exactly one entry to the target's history and marks the target found exactly when the guess equals its secret. Nothing else changes, apart from game-over titles. |
| `App.SubmitChangesIffAccepted` | App.tsx:124-159 | The state changes exactly when the guard accepts the guess. |
| `App.TargetAfterGuess` | App.tsx:153-157 | The target stays in the game exactly when the guess misses, and ids stay distinct. |
| `App.SubmitRotates` | App.tsx:185-189 | While two or more players are left after the guess, the roster is the recorded one and no winner is set. The new current pair is the one `calculateNextTurn` returns: distinct, and both still in the game. |
| `App.SubmitEndsGame` | App.tsx:161-182 | A guess that leaves at most one player ends the game with a winner. The winner is the player still left, or the target just found when nobody is left. |
| `App.EndGameWinner` | App.tsx:161-163 | When the guess changed only the target's seat, game over always names a winner. That winner is still in the game, or is the target when nobody is left. |
| `App.SubmitTitles` | App.tsx:164-174 | At game over the winner carries the drawn winning title, and every other player the next title from the losing pool. |
| `App.PlayingAccepts` | App.tsx:125-128 | In a game in progress, the current guesser and target pass the guard of `handleSubmitGuess`. |
| `App.SubmitKeepsInvariant` | App.tsx:124-203 | A submitted guess keeps a game in progress well formed: it either ends the game or hands the turn to two distinct players who are both still in. |
| `App.RecordedSecretsFit` | App.tsx:155-157 | Recording a guess leaves every secret as it was. |
| `App.TurnTimeout` | App.tsx:205-228 | The roster, phase and winner are untouched. With at most one player left (a `null` rotation) nothing changes. Otherwise the new pair is distinct, the guesser is in the game, and the target is in the game if the old one was. |
| `App.TimeoutKeepsInvariant` | App.tsx:205-228 | A timeout keeps a game in progress well formed. |
| `App.TimeoutIsMissedGuess` | App.tsx:205-211 | A timeout moves the turn exactly as a missing guess by the current guesser at the current target would. |
| `App.FirstHuman` | App.tsx:275 | `find(p => !p.isBot)`: none exactly when every lobby entry is a bot, otherwise the first human entry, with only bots before it. |
| `App.BotNames` | App.tsx:289 | The bot configs are empty exactly when the lobby has no bot, and shorter than the lobby when it has a human. |
| `App.BotNamesAppend` | App.tsx:289 | The bot names are taken seat by seat in lobby order: a concatenation of lobbies gives the concatenation of their names. |
| `App.BotNamesSingle` | App.tsx:289 | One seat contributes its name exactly when it is a bot. |
| `App.BotNamesFromBots` | App.tsx:289 | Every bot name is the name of a bot in the lobby. |
| `App.BotNamesHaveBots` | App.tsx:289 | Every bot's name is on the list. |
| `App.StartGame` | App.tsx:272-293 | The setup phase begins exactly when the lobby holds a human. Otherwise the game restarts (`Restart`). On setup the settings are stored, the first human of the lobby is seated alone as the local player, unfound, with no secret yet and no history, and the bots are remembered by name. |
| `App.SetupComplete` | App.tsx:295-296 | Without settings, completing setup changes nothing. |
| `App.SetupSeats` | App.tsx:295-314 | The local player keeps seat 0 with the chosen secret. Bot i takes seat i+1 with id i+1, its name and a generated secret of `digitCount` digits. Nobody is found and histories are empty. The local player guesses first and seat 1 is the target. |
| `App.SetupEstablishesInvariant` | App.tsx:272-314 | Starting from a lobby with a human and a bot, then entering a secret of the configured length, yields a game in progress that is well formed, with the local player guessing and seat 1 the target. |
| `App.NumberedSeats` | App.tsx:300-311 | Two or more unfound players seated by number have distinct ids and are all active. |
| `DigitEntry.PressDigit` | components/GameScreen.tsx:239-244 | A digit is appended, and the error cleared, only while the buffer is shorter than `digitCount`. A full buffer ignores the press. |
| `DigitEntry.PressBack` | components/GameScreen.tsx:246-249 | Backspace drops exactly the last digit, leaves an empty buffer empty, and clears the error. |
| `DigitEntry.PressOk` | components/GameScreen.tsx:251-260 | The buffer is handed on exactly when it holds `digitCount` digits, and then it is the buffer itself. Otherwise the buffer stays and the error appears. After a successful guess the buffer and the error are cleared. Through the numpad only the first case is reachable (`Press`). |
| `DigitEntry.Press` | components/Numpad.tsx:46-52 | A press of the disabled OK button (the buffer is not exactly `digitCount` long) does nothing. Only OK hands anything on, and then it is the full buffer. No press raises the error. |
| `DigitEntry.RunNeverWarns` | components/GameScreen.tsx:358 | The OK button is disabled unless the buffer has `digitCount` digits, so a session that starts without the error never shows it. |
| `DigitEntry.PressFits` | components/SetupScreen.tsx:16-26 | A press of a numpad key (`Press`) keeps the buffer within `digitCount` digits. |
| `DigitEntry.RunSendsFullBuffers` | components/SetupScreen.tsx:16-34 | Whatever numpad keys are pressed (`Run`), the buffer never exceeds `digitCount`, and every value handed on has exactly `digitCount` digits. |
| `DigitEntry.BackUndoesDigit` | components/SetupScreen.tsx:16-26 | Backspace undoes an accepted digit. |
| `DigitEntry.TypingAppends` | components/GameScreen.tsx:239-244 | Typing digits into a buffer with room appends them all and hands nothing on. |
| `DigitEntry.RunSplits` | components/GameScreen.tsx:239-260 | Running two batches of keys in turn is running their concatenation. |
| `DigitEntry.TypeThenOk` | components/GameScreen.tsx:239-260 | From an empty buffer, typing `digitCount` digits and pressing OK hands on exactly those digits, once. |
| `DigitEntry.TurnChanged` | components/GameScreen.tsx:171-179 | When the turn becomes the local player's (`IsMyTurn`), the buffer and the error are reset. Otherwise they are kept. |
| `DigitEntry.ScreenGuessAccepted` | App.tsx:340 | Every guess the guessing screen hands on during the local turn has `digitCount` digits, and the local player's pair passes the submit guard. |
| `Lobby.Decrement` | components/LobbyScreen.tsx:56 | `Math.max(min, value - 1)`: never below `min`, one less whenever the value is above `min`. |
| `Lobby.Increment` | components/LobbyScreen.tsx:61 | `Math.min(max, value + 1)`: never above `max`, one more whenever the value is below `max`. |
| `Lobby.Press` | components/LobbyScreen.tsx:29-86 | A guest's press and a press of a disabled button (`Enabled`) change nothing. An enabled "-" or "+" sets its count to `Decrement` or `Increment` of it, and an enabled time button sets the time to its option. Each control changes only its own setting. |
| `Lobby.PressInRange` | components/LobbyScreen.tsx:49-86 | Every control keeps the player count in 2..6, the digit count in 3..6 and the turn time among 0, 15, 30, 45, 60, and moves a count by at most one. |
| `Lobby.PressAllInRange` | components/LobbyScreen.tsx:130-132 | Any sequence of presses keeps the settings in range. A guest's presses change nothing at all. |
| `Lobby.ClampsBack` | components/LobbyScreen.tsx:55-64 | A count above its maximum is set to the maximum by one press of "+", and a count below its minimum is set to the minimum by one press of "-". |
| `Lobby.StartEnabledIff` | components/LobbyScreen.tsx:135-139 | The start button (`StartEnabled`) is live exactly for a host whose lobby holds between two players and the configured count, which is at most six. |
| `TurnExamples.FirstRound` | App.tsx:37-47 | On four seats with target B, A's guess passes the turn to C and C's to D. |
| `TurnExamples.SecondRound` | App.tsx:47-68 | After D, the last guesser against B, C becomes the target and A guesses. |
| `TurnExamples.FoundMidRound` | App.tsx:47-68 | When A finds B, the round ends at once: C becomes the target and A guesses. |
| `TurnExamples.TwoLeft` | App.tsx:50-68 | With B and C found, D becomes the target after C is found. After A's single guess, the scan wraps round to A. |
| `TurnExamples.OneLeft` | App.tsx:30-33 | With one player left there is no next turn. |

## Left out

- Audio (`soundManager`), the realtime backend configuration, `localStorage` and the sound toggles: I/O with no effect on the game state.
- Bot scheduling and the countdown (`setTimeout`/`setInterval`): timers and concurrency. A bot's guess is just another `SubmitGuess` call, with its digits supplied as `GenerateNumber` draws.
- `Math.random`: the digit draws, the title shuffle and the winning-title index are parameters. The shuffle itself is not modelled, since any permutation can be passed in.
- The winning and losing title lists are parameters. Their module is not part of this model.
- The arrow and shouted-guess geometry on the guessing screen: floating-point DOM coordinates.
- Chat (`handleSendMessage` and `lastMessage`): it reads the clock and does not affect play.
- Rendering, the overlay that hides the numpad when it is not the local player's turn, and the home, join and game-over screens: user interface only.
- `handleCreateLobby`, `handleJoinRequest`, `handleJoinLobby` and `handleBackToHome` only set the name, the host flag and the phase. `onAddBot` and `onRemovePlayer` belong to lobby props that this engine does not wire up.
- The prop shapes of the guessing and lobby screens (a `game` object with string ids) do not match what the top-level component passes. Only the handler logic is modelled.
- `App.SubmitGuess`: requires a guess of `digitCount` characters and a secret of that length at every seat. The scoring loops index both for `i < digitCount`, and a shorter array would compare against `undefined`. Every caller hands over `digitCount` digits (`DigitEntry.ScreenGuessAccepted`, and `GenerateNumber` for bots).
- `App.SubmitGuess`: requires distinct player ids. Setup seats ids 0..n, so this holds for every roster the game builds (`App.SetupEstablishesInvariant`).
- `Rotation.CalculateNextTurn`: requires distinct player ids, for the same reason.
- `App.SetupComplete`: requires one generated draw of `digitCount` digits per bot, since the draws are the injected randomness and `generateNumber` is called with `digitCount`. It also requires a seated local player, which `handleStartGame` always provides; the code would otherwise spread `undefined` into seat 0.
- `App.SetupEstablishesInvariant`: requires at least one bot in the lobby, because a lobby without bots seats only the local player, who is then both guesser and target.
- `Titles.WinningTitle`: the drawn index is a natural number. `Math.floor(Math.random() * n)` is always in range for a non-empty list, so out-of-range draws model only an empty list.
- Guarding against concurrent updates of the game state and cancelling a bot turn that has gone stale: the code has neither, so neither is modelled.
