/** The game state held by the top-level component and the transitions that
    change it: starting a game from the lobby, seating the players once the
    local secret is chosen, scoring a submitted guess (and ending the game
    with titles when one player is left), and passing on a turn timeout.
    Randomness is injected: digit draws for generated numbers, the shuffled
    losing-title pool and the winning-title index. */
module App {
  import opened Types
  import opened Scoring
  import opened Rotation
  import opened Titles

  const LocalPlayerId: int := 0

  /** The state the transitions below read and write. The local player's
      name, the host flag, the countdown and the sound toggles are not
      modelled. */
  datatype GameState = GameState(
    phase: GamePhase,
    settings: Option<GameSettings>,
    players: seq<Player>,
    botNames: seq<string>,
    currentPlayerId: int,
    targetPlayerId: int,
    winner: Option<Player>)

  /** The random choices made when the game ends: the winning-title list and
      the index drawn into it, and the shuffled copy of the losing titles. */
  datatype TitleDraw = TitleDraw(winningTitles: seq<string>, pick: nat, shuffledLosing: seq<string>)

  /** One lobby entry as handed to `handleStartGame`. */
  datatype LobbySeat = LobbySeat(name: string, isBot: bool)

  // ---------------------------------------------------------------------
  // Random numbers

  function DigitValue(c: char): int {
    c as int - '0' as int
  }

  /** `generateNumber(count)` with the `count` draws of
      `Math.floor(Math.random() * 10)` supplied by the caller. */
  function GenerateNumber(draws: seq<nat>): (r: seq<char>)
    requires forall i :: 0 <= i < |draws| ==> draws[i] < 10
    ensures |r| == |draws| && IsDigits(r)
    ensures forall i :: 0 <= i < |r| ==> DigitValue(r[i]) == draws[i]
  {
    seq(|draws|, i requires 0 <= i < |draws| => ('0' as int + draws[i]) as char)
  }

  // ---------------------------------------------------------------------
  // Roster shape

  /** Every seated player holds a secret of `n` digits. */
  predicate SecretsFit(ps: seq<Player>, n: int) {
    forall i :: 0 <= i < |ps| ==> |ps[i].secretNumber| == n && IsDigits(ps[i].secretNumber)
  }

  /** What `handleSubmitGuess` relies on: the scoring loops index the target's
      secret and the guess at positions `0 .. digitCount-1`, and players are
      looked up by identifier. */
  predicate SubmitReady(st: GameState, guess: seq<char>) {
    st.settings.Some? ==>
      UniqueIds(st.players) &&
      (forall i :: 0 <= i < |st.players| ==>
         |st.players[i].secretNumber| == st.settings.value.digitCount) &&
      |guess| == st.settings.value.digitCount
  }

  /** The guard at the top of `handleSubmitGuess` passes: settings exist, the
      target is seated and not yet found, and the guesser is seated. */
  predicate Accepts(st: GameState, guesserId: int, targetId: int) {
    var t := SeatOf(st.players, targetId);
    st.settings.Some? && t >= 0 && !st.players[t].isFound && SeatOf(st.players, guesserId) >= 0
  }

  /** `players.find(p => !p.isFound)`. */
  function FirstUnfound(ps: seq<Player>): (r: Option<Player>)
    ensures r.None? <==> forall i :: 0 <= i < |ps| ==> ps[i].isFound
    ensures r.Some? ==> exists i :: 0 <= i < |ps| && ps[i] == r.value && !ps[i].isFound &&
                                   forall j :: 0 <= j < i ==> ps[j].isFound
  {
    if |ps| == 0 then None
    else if !ps[0].isFound then Some(ps[0])
    else
      var r := FirstUnfound(ps[1..]);
      assert forall i :: 1 <= i < |ps| ==> ps[1..][i - 1] == ps[i];
      if r.Some? then
        assert exists i :: 1 <= i < |ps| && ps[i] == r.value && !ps[i].isFound &&
                           forall j :: 0 <= j < i ==> ps[j].isFound by {
          var i :| 0 <= i < |ps[1..]| && ps[1..][i] == r.value && !ps[1..][i].isFound &&
                   forall j :: 0 <= j < i ==> ps[1..][j].isFound;
          assert forall j :: 1 <= j < i + 1 ==> ps[j] == ps[1..][j - 1];
        }
        r
      else r
  }

  // ---------------------------------------------------------------------
  // Submitting a guess

  /** `playersState.map(...)`: the target's entry gains the new guess and its
      found flag is or-ed with `found`; every other entry is kept. */
  function RecordGuess(ps: seq<Player>, targetId: int, g: Guess, found: bool): (r: seq<Player>)
    ensures |r| == |ps|
    ensures forall i :: 0 <= i < |ps| && ps[i].id != targetId ==> r[i] == ps[i]
    ensures forall i :: 0 <= i < |ps| && ps[i].id == targetId ==>
              r[i] == ps[i].(history := ps[i].history + [g], isFound := found || ps[i].isFound)
  {
    seq(|ps|, i requires 0 <= i < |ps| =>
      if ps[i].id == targetId
      then ps[i].(history := ps[i].history + [g], isFound := found || ps[i].isFound)
      else ps[i])
  }

  /** `finalWinner`: the first player still unfound after the guess, or
      else the first one unfound before it. */
  function FinalWinner(st: GameState, updated: seq<Player>): (r: Option<Player>)
    requires Ids(updated) == Ids(st.players)
    ensures r.Some? ==> r.value.id in Ids(updated)
    ensures FirstUnfound(updated).Some? ==> r == FirstUnfound(updated)
    ensures FirstUnfound(updated).None? ==> r == FirstUnfound(st.players)
  {
    match FirstUnfound(updated)
    case Some(p) =>
      var i :| 0 <= i < |updated| && updated[i] == p && !updated[i].isFound &&
               forall j :: 0 <= j < i ==> updated[j].isFound;
      assert Ids(updated)[i] == p.id;
      Some(p)
    case None =>
      var r := FirstUnfound(st.players);
      if r.Some? then
        var i :| 0 <= i < |st.players| && st.players[i] == r.value && !st.players[i].isFound &&
                 forall j :: 0 <= j < i ==> st.players[j].isFound;
        assert Ids(st.players)[i] == r.value.id;
        r
      else r
  }

  /** The game-over branch of `handleSubmitGuess`: the winner is the
      `FinalWinner`; titles are handed out and the phase becomes `GameOver`. */
  function EndGame(st: GameState, updated: seq<Player>, draw: TitleDraw): (r: GameState)
    requires Ids(updated) == Ids(st.players)
    ensures r.phase == GameOver && r.settings == st.settings && r.botNames == st.botNames
    ensures r.currentPlayerId == st.currentPlayerId && r.targetPlayerId == st.targetPlayerId
    ensures RetitledOnly(updated, r.players)
    ensures r.winner.Some? <==> FinalWinner(st, updated).Some?
    ensures r.winner.Some? ==>
              r.winner.value in r.players && r.winner.value.id == FinalWinner(st, updated).value.id &&
              r.winner.value.title == WinningTitle(draw.winningTitles, draw.pick) &&
              forall i :: 0 <= i < |r.players| && r.players[i].id != r.winner.value.id ==>
                r.players[i].title ==
                Some(LosingTitle(draw.shuffledLosing, LosersBefore(Ids(updated), r.winner.value.id, i)))
  {
    match FinalWinner(st, updated)
    case Some(w) =>
      var titled := AssignTitles(updated, w.id, WinningTitle(draw.winningTitles, draw.pick),
                                 draw.shuffledLosing);
      AssignTitlesAll(updated, w.id, WinningTitle(draw.winningTitles, draw.pick), draw.shuffledLosing);
      assert Ids(titled) == Ids(updated);
      st.(players := titled, winner := FindPlayer(titled, w.id), phase := GameOver)
    case None =>
      st.(players := updated, winner := None, phase := GameOver)
  }

  /** `handleSubmitGuess(guess, guesserId, currentTargetId, playersState)` with
      `playersState` the current roster. A rejected call changes nothing. */
  function SubmitGuess(st: GameState, guess: seq<char>, guesserId: int, targetId: int,
                       draw: TitleDraw): (r: GameState)
    requires SubmitReady(st, guess)
    ensures !Accepts(st, guesserId, targetId) ==> r == st
    ensures Accepts(st, guesserId, targetId) ==> r == ScoredGuess(st, guess, guesserId, targetId, draw)
    ensures r.settings == st.settings && r.botNames == st.botNames
    ensures |r.players| == |st.players|
  {
    if st.settings.None? then st
    else
      var target := FindPlayer(st.players, targetId);
      var guesser := FindPlayer(st.players, guesserId);
      if target.None? || target.value.isFound || guesser.None? then st
      else ScoredGuess(st, guess, guesserId, targetId, draw)
  }

  /** The history entry an accepted guess produces (`newGuess`). */
  function NewEntry(st: GameState, guess: seq<char>, guesserId: int, targetId: int): Guess
    requires SubmitReady(st, guess) && Accepts(st, guesserId, targetId)
  {
    var ps := st.players;
    var fb := Score(ps[SeatOf(ps, targetId)].secretNumber, guess);
    Guess(guess, fb.correct, fb.misplaced, guesserId, ps[SeatOf(ps, guesserId)].name)
  }

  /** `playerFound`: every digit of the guess is in place. */
  function FoundBy(st: GameState, guess: seq<char>, guesserId: int, targetId: int): bool
    requires SubmitReady(st, guess) && Accepts(st, guesserId, targetId)
  {
    NewEntry(st, guess, guesserId, targetId).correct == st.settings.value.digitCount
  }

  /** `updatedPlayers`. */
  function Recorded(st: GameState, guess: seq<char>, guesserId: int, targetId: int): seq<Player>
    requires SubmitReady(st, guess) && Accepts(st, guesserId, targetId)
  {
    RecordGuess(st.players, targetId, NewEntry(st, guess, guesserId, targetId),
                FoundBy(st, guess, guesserId, targetId))
  }

  /** The body of `handleSubmitGuess` past its guard: score the guess against
      the target's secret, record it, then either end the game or rotate. */
  function ScoredGuess(st: GameState, guess: seq<char>, guesserId: int, targetId: int,
                       draw: TitleDraw): (r: GameState)
    requires SubmitReady(st, guess) && Accepts(st, guesserId, targetId)
    ensures r.settings == st.settings && r.botNames == st.botNames
    ensures |r.players| == |st.players|
    ensures RetitledOnly(Recorded(st, guess, guesserId, targetId), r.players)
  {
    var found := FoundBy(st, guess, guesserId, targetId);
    var updated := Recorded(st, guess, guesserId, targetId);
    RecordKeepsSeats(st.players, targetId, NewEntry(st, guess, guesserId, targetId), found);
    if |ActiveIds(updated)| <= 1 then EndGame(st, updated, draw)
    else Rotate(st, updated, guesserId, targetId, found)
  }

  /** The branch of `handleSubmitGuess` that keeps the game going: the
      recorded roster replaces the old one and the turn moves to the pair
      `calculateNextTurn` picks. */
  function Rotate(st: GameState, updated: seq<Player>, guesserId: int, targetId: int,
                  found: bool): (r: GameState)
    requires UniqueIds(updated)
    ensures r.players == updated && r.phase == st.phase && r.winner == st.winner
    ensures r.settings == st.settings && r.botNames == st.botNames
  {
    match CalculateNextTurn(updated, guesserId, targetId, found)
    case None => st.(players := updated)
    case Some(t) =>
      st.(players := updated, currentPlayerId := t.nextGuesserId, targetPlayerId := t.nextTargetId)
  }

  lemma RecordKeepsSeats(ps: seq<Player>, targetId: int, g: Guess, found: bool)
    ensures Ids(RecordGuess(ps, targetId, g, found)) == Ids(ps)
    ensures UniqueIds(ps) ==> UniqueIds(RecordGuess(ps, targetId, g, found))
  {
    var r := RecordGuess(ps, targetId, g, found);
    assert forall i :: 0 <= i < |ps| ==> r[i].id == ps[i].id;
  }

  // ---------------------------------------------------------------------
  // Turn timeout

  /** `handleTurnTimeout`: a pass. The roster is left alone and the turn moves
      on as after a guess that did not find the target. */
  function TurnTimeout(st: GameState): (r: GameState)
    requires st.settings.Some? ==> UniqueIds(st.players)
    ensures r.players == st.players && r.phase == st.phase && r.winner == st.winner
    ensures r.settings == st.settings && r.botNames == st.botNames
    ensures st.settings.None? || |ActiveIds(st.players)| <= 1 ==> r == st
    ensures st.settings.Some? && |ActiveIds(st.players)| >= 2 ==>
              r.currentPlayerId != r.targetPlayerId && HasActive(st.players, r.currentPlayerId) &&
              (HasActive(st.players, st.targetPlayerId) ==> HasActive(st.players, r.targetPlayerId))
  {
    if st.settings.None? then st
    else
      match CalculateNextTurn(st.players, st.currentPlayerId, st.targetPlayerId, false)
      case None => st
      case Some(t) => st.(currentPlayerId := t.nextGuesserId, targetPlayerId := t.nextTargetId)
  }

  // ---------------------------------------------------------------------
  // Starting and seating

  /** `playersInLobby.find(p => !p.isBot)`. */
  function FirstHuman(lobby: seq<LobbySeat>): (r: Option<LobbySeat>)
    ensures r.None? <==> forall i :: 0 <= i < |lobby| ==> lobby[i].isBot
    ensures r.Some? ==> r.value in lobby && !r.value.isBot
    ensures r.Some? ==> exists i :: 0 <= i < |lobby| && lobby[i] == r.value &&
                          forall j :: 0 <= j < i ==> lobby[j].isBot
  {
    if |lobby| == 0 then None
    else if !lobby[0].isBot then Some(lobby[0])
    else
      assert forall i :: 1 <= i < |lobby| ==> lobby[1..][i - 1] == lobby[i];
      FirstHuman(lobby[1..])
  }

  /** `playersInLobby.filter(p => p.isBot).map(p => p.name)`. */
  function BotNames(lobby: seq<LobbySeat>): (r: seq<string>)
    ensures |r| <= |lobby|
    ensures (exists i :: 0 <= i < |lobby| && !lobby[i].isBot) ==> |r| < |lobby|
    ensures |r| == 0 <==> forall i :: 0 <= i < |lobby| ==> !lobby[i].isBot
  {
    if |lobby| == 0 then []
    else
      assert forall i :: 1 <= i < |lobby| ==> lobby[1..][i - 1] == lobby[i];
      assert (exists i :: 0 <= i < |lobby| && !lobby[i].isBot) && lobby[0].isBot ==>
             exists i :: 0 <= i < |lobby[1..]| && !lobby[1..][i].isBot by {
        if (exists i :: 0 <= i < |lobby| && !lobby[i].isBot) && lobby[0].isBot {
          var i :| 0 <= i < |lobby| && !lobby[i].isBot;
          assert lobby[1..][i - 1] == lobby[i];
        }
      }
      (if lobby[0].isBot then [lobby[0].name] else []) + BotNames(lobby[1..])
  }

  /** One seat contributes its name exactly when it is a bot. */
  lemma BotNamesSingle(x: LobbySeat)
    ensures BotNames([x]) == if x.isBot then [x.name] else []
  {
    assert [x][1..] == [];
  }

  /** The bot names are those of the lobby's bots in lobby order: the list
      of a concatenation is the concatenation of the lists. */
  lemma {:induction false} BotNamesAppend(a: seq<LobbySeat>, b: seq<LobbySeat>)
    ensures BotNames(a + b) == BotNames(a) + BotNames(b)
    decreases |a|
  {
    if |a| == 0 {
      assert a + b == b;
    } else {
      var head := if a[0].isBot then [a[0].name] else [];
      var rest, tail := BotNames(a[1..]), BotNames(b);
      assert (a + b)[0] == a[0] && (a + b)[1..] == a[1..] + b;
      assert BotNames(a + b) == head + BotNames(a[1..] + b);
      assert BotNames(a) == head + rest;
      BotNamesAppend(a[1..], b);
      assert head + (rest + tail) == (head + rest) + tail;
    }
  }

  /** Every bot name is the name of a bot of the lobby. */
  lemma {:induction false} BotNamesFromBots(lobby: seq<LobbySeat>)
    ensures forall k :: 0 <= k < |BotNames(lobby)| ==>
              exists i :: 0 <= i < |lobby| && lobby[i].isBot && lobby[i].name == BotNames(lobby)[k]
    decreases |lobby|
  {
    if |lobby| > 0 {
      var tail := lobby[1..];
      var names := BotNames(tail);
      BotNamesFromBots(tail);
      var head := if lobby[0].isBot then [lobby[0].name] else [];
      assert BotNames(lobby) == head + names;
      forall k | 0 <= k < |BotNames(lobby)|
        ensures exists i :: 0 <= i < |lobby| && lobby[i].isBot && lobby[i].name == BotNames(lobby)[k]
      {
        if k < |head| {
          assert lobby[0].isBot && lobby[0].name == BotNames(lobby)[k];
        } else {
          assert BotNames(lobby)[k] == names[k - |head|];
          var i :| 0 <= i < |tail| && tail[i].isBot && tail[i].name == names[k - |head|];
          assert lobby[i + 1] == tail[i];
        }
      }
    } else {
      assert BotNames(lobby) == [];
    }
  }

  /** Every bot of the lobby has its name on the list. */
  lemma {:induction false} BotNamesHaveBots(lobby: seq<LobbySeat>)
    ensures forall i :: 0 <= i < |lobby| && lobby[i].isBot ==> lobby[i].name in BotNames(lobby)
    decreases |lobby|
  {
    if |lobby| > 0 {
      var tail := lobby[1..];
      var names := BotNames(tail);
      BotNamesHaveBots(tail);
      var head := if lobby[0].isBot then [lobby[0].name] else [];
      assert BotNames(lobby) == head + names;
      forall i | 0 <= i < |lobby| && lobby[i].isBot
        ensures lobby[i].name in BotNames(lobby)
      {
        if i > 0 {
          assert tail[i - 1] == lobby[i];
          assert lobby[i].name in names;
        }
      }
    }
  }

  /** `handleRestart`. */
  function Restart(st: GameState): GameState {
    st.(phase := Home, settings := None, players := [], winner := None, botNames := [])
  }

  /** `handleStartGame(playersInLobby, newSettings)`: without a human in the
      lobby the game restarts; otherwise the local player is seated alone,
      the bots are remembered by name and the secret-entry phase begins. */
  function StartGame(st: GameState, lobby: seq<LobbySeat>, s: GameSettings): (r: GameState)
    ensures (r.phase == Setup) <==> exists i :: 0 <= i < |lobby| && !lobby[i].isBot
    ensures r.phase != Setup ==> r == Restart(st)
    ensures r.phase == Setup ==>
              r.settings == Some(s) && |r.players| == 1 &&
              r.players[0].id == LocalPlayerId && !r.players[0].isFound &&
              r.players[0].secretNumber == [] && r.players[0].title.None? &&
              r.players[0].history == [] && r.botNames == BotNames(lobby) &&
              |r.botNames| < |lobby|
    ensures r.phase == Setup ==>
              exists i :: 0 <= i < |lobby| && !lobby[i].isBot && r.players[0].name == lobby[i].name &&
                          forall j :: 0 <= j < i ==> lobby[j].isBot
  {
    match FirstHuman(lobby)
    case None => Restart(st)
    case Some(h) =>
      st.(settings := Some(s), botNames := BotNames(lobby),
          players := [Player(LocalPlayerId, h.name, [], false, [], None)], phase := Setup)
  }

  /** `handleSetupComplete(secret)`: the local player keeps seat 0 with the
      chosen secret, bot `i` takes seat `i + 1` with identifier `i + 1` and a
      generated secret, the local player guesses first and seat 1 is the
      first target. */
  function SetupComplete(st: GameState, secret: seq<char>, botDraws: seq<seq<nat>>): (r: GameState)
    requires |botDraws| == |st.botNames|
    requires forall i, j :: 0 <= i < |botDraws| && 0 <= j < |botDraws[i]| ==> botDraws[i][j] < 10
    requires st.settings.Some? ==> |st.players| > 0
    requires st.settings.Some? ==> forall i :: 0 <= i < |botDraws| ==> |botDraws[i]| == st.settings.value.digitCount
    ensures st.settings.None? ==> r == st
  {
    if st.settings.None? then st
    else
      var local := st.players[0].(secretNumber := secret);
      var bots := seq(|st.botNames|, i requires 0 <= i < |st.botNames| =>
                      Player(i + 1, st.botNames[i], GenerateNumber(botDraws[i]), false, [], None));
      var all := [local] + bots;
      st.(players := all, targetPlayerId := if |all| > 1 then 1 else 0,
          currentPlayerId := LocalPlayerId, phase := Playing)
  }

  // ---------------------------------------------------------------------
  // Properties

  /** What a game in progress keeps: one roster with distinct identifiers and
      well-formed secrets, at least two players left, and a current guesser
      and target who are distinct and both still in the game. */
  ghost predicate PlayingInvariant(st: GameState) {
    st.phase == Playing ==>
      st.settings.Some? && UniqueIds(st.players) &&
      SecretsFit(st.players, st.settings.value.digitCount) &&
      |ActiveIds(st.players)| >= 2 &&
      st.currentPlayerId != st.targetPlayerId &&
      HasActive(st.players, st.currentPlayerId) && HasActive(st.players, st.targetPlayerId)
  }

  /** What the history entry of an accepted guess records: the guess, who
      made it, and its score against the target's secret. */
  predicate EntryFor(e: Guess, guess: seq<char>, secret: seq<char>, guesserId: int,
                     guesserName: string)
    requires |secret| == |guess|
  {
    e.value == guess && e.guesserId == guesserId && e.guesserName == guesserName &&
    e.correct + e.misplaced <= |guess| &&
    (e.correct == |guess| <==> guess == secret) &&
    (IsDigits(guess) && IsDigits(secret) ==>
       e.correct == |ExactPositions(secret, guess)| && e.misplaced == OverlapCount(secret, guess))
  }

  lemma NewEntryMeaning(st: GameState, guess: seq<char>, guesserId: int, targetId: int)
    requires SubmitReady(st, guess) && Accepts(st, guesserId, targetId)
    ensures var ps := st.players;
            var t := SeatOf(ps, targetId);
            EntryFor(NewEntry(st, guess, guesserId, targetId), guess, ps[t].secretNumber,
                     guesserId, ps[SeatOf(ps, guesserId)].name) &&
            (FoundBy(st, guess, guesserId, targetId) <==> guess == ps[t].secretNumber)
  {
    var secret := st.players[SeatOf(st.players, targetId)].secretNumber;
    if IsDigits(guess) && IsDigits(secret) {
      ScoreIsReference(secret, guess);
    }
  }

  /** With distinct identifiers, recording touches the target's seat only. */
  lemma RecordAtSeat(ps: seq<Player>, targetId: int, g: Guess, found: bool)
    requires UniqueIds(ps) && SeatOf(ps, targetId) >= 0
    ensures var t := SeatOf(ps, targetId);
            var u := RecordGuess(ps, targetId, g, found);
            u[t] == ps[t].(history := ps[t].history + [g], isFound := found || ps[t].isFound) &&
            forall i :: 0 <= i < |ps| && i != t ==> u[i] == ps[i]
  {
    var t := SeatOf(ps, targetId);
    forall i | 0 <= i < |ps| && i != t
      ensures ps[i].id != targetId
    {
      SeatOfUnique(ps, i);
    }
  }

  /** A guess that misses leaves every seat's identifier and found flag as
      they were. */
  lemma MissKeepsSeating(ps: seq<Player>, targetId: int, g: Guess)
    ensures SameSeating(ps, RecordGuess(ps, targetId, g, false))
  {
  }

  lemma RecordedRoster(st: GameState, guess: seq<char>, guesserId: int, targetId: int)
    requires SubmitReady(st, guess) && Accepts(st, guesserId, targetId)
    ensures var ps := st.players;
            var t := SeatOf(ps, targetId);
            var u := Recorded(st, guess, guesserId, targetId);
            |u| == |ps| &&
            u[t] == ps[t].(history := ps[t].history + [NewEntry(st, guess, guesserId, targetId)],
                           isFound := FoundBy(st, guess, guesserId, targetId)) &&
            forall i :: 0 <= i < |ps| && i != t ==> u[i] == ps[i]
  {
    RecordAtSeat(st.players, targetId, NewEntry(st, guess, guesserId, targetId),
                 FoundBy(st, guess, guesserId, targetId));
  }

  /** An accepted guess appends exactly one entry to the target's history,
      marks the target found exactly when the guess equals its secret, and
      changes nothing else: no other player's record, and none of the
      target's other fields, apart from titles handed out at game over. */
  lemma SubmitRecordsGuess(st: GameState, guess: seq<char>, guesserId: int, targetId: int,
                           draw: TitleDraw)
    requires SubmitReady(st, guess) && Accepts(st, guesserId, targetId)
    ensures var r := SubmitGuess(st, guess, guesserId, targetId, draw);
            var ps := st.players;
            var t := SeatOf(ps, targetId);
            var n := |ps[t].history|;
            |r.players| == |ps| &&
            |r.players[t].history| == n + 1 && r.players[t].history[..n] == ps[t].history &&
            EntryFor(r.players[t].history[n], guess, ps[t].secretNumber, guesserId,
                     ps[SeatOf(ps, guesserId)].name) &&
            (r.players[t].isFound <==> guess == ps[t].secretNumber) &&
            r.players[t].(history := ps[t].history, isFound := false, title := ps[t].title) == ps[t] &&
            forall i :: 0 <= i < |ps| && i != t ==> r.players[i].(title := ps[i].title) == ps[i]
  {
    NewEntryMeaning(st, guess, guesserId, targetId);
    RecordedRoster(st, guess, guesserId, targetId);
    var ps := st.players;
    var t := SeatOf(ps, targetId);
    var r := SubmitGuess(st, guess, guesserId, targetId, draw);
    var u := Recorded(st, guess, guesserId, targetId);
    var e := NewEntry(st, guess, guesserId, targetId);
    assert RetitledOnly(u, r.players);
    assert r.players[t] == u[t].(title := r.players[t].title);
    assert r.players[t].history == ps[t].history + [e];
    assert (ps[t].history + [e])[..|ps[t].history|] == ps[t].history;
    forall i | 0 <= i < |ps| && i != t
      ensures r.players[i].(title := ps[i].title) == ps[i]
    {
      assert r.players[i] == u[i].(title := r.players[i].title);
    }
  }

  /** A guess is rejected exactly when the guard fails: an accepted guess
      always changes the roster. */
  lemma SubmitChangesIffAccepted(st: GameState, guess: seq<char>, guesserId: int, targetId: int,
                                 draw: TitleDraw)
    requires SubmitReady(st, guess)
    ensures SubmitGuess(st, guess, guesserId, targetId, draw) != st <==> Accepts(st, guesserId, targetId)
  {
    if Accepts(st, guesserId, targetId) {
      SubmitRecordsGuess(st, guess, guesserId, targetId, draw);
      var t := SeatOf(st.players, targetId);
      assert |SubmitGuess(st, guess, guesserId, targetId, draw).players[t].history| != |st.players[t].history|;
    }
  }

  /** The target stays in the game exactly when the guess missed. */
  lemma TargetAfterGuess(st: GameState, guess: seq<char>, guesserId: int, targetId: int)
    requires SubmitReady(st, guess) && Accepts(st, guesserId, targetId)
    ensures var u := Recorded(st, guess, guesserId, targetId);
            UniqueIds(u) && Ids(u) == Ids(st.players) &&
            (!FoundBy(st, guess, guesserId, targetId) ==> HasActive(u, targetId)) &&
            (FoundBy(st, guess, guesserId, targetId) ==> !HasActive(u, targetId))
  {
    RecordedRoster(st, guess, guesserId, targetId);
    RecordKeepsSeats(st.players, targetId, NewEntry(st, guess, guesserId, targetId),
                     FoundBy(st, guess, guesserId, targetId));
    var u := Recorded(st, guess, guesserId, targetId);
    var t := SeatOf(st.players, targetId);
    assert u[t].id == targetId;
  }

  /** While two or more players are left after the guess, no titles are
      handed out and the turn passes to the pair `calculateNextTurn` picks:
      two distinct players, both still in the game. */
  lemma SubmitRotates(st: GameState, guess: seq<char>, guesserId: int, targetId: int,
                      draw: TitleDraw)
    requires SubmitReady(st, guess) && Accepts(st, guesserId, targetId)
    ensures var r := SubmitGuess(st, guess, guesserId, targetId, draw);
            var u := Recorded(st, guess, guesserId, targetId);
            UniqueIds(u) &&
            (|ActiveIds(u)| >= 2 ==>
               r.players == u && r.phase == st.phase && r.winner == st.winner &&
               CalculateNextTurn(u, guesserId, targetId, FoundBy(st, guess, guesserId, targetId)) ==
                 Some(Turn(r.currentPlayerId, r.targetPlayerId)) &&
               r.currentPlayerId != r.targetPlayerId &&
               HasActive(u, r.currentPlayerId) && HasActive(u, r.targetPlayerId))
  {
    TargetAfterGuess(st, guess, guesserId, targetId);
  }

  /** All seats found: no player is left in the game. */
  lemma NoneLeft(ps: seq<Player>)
    requires forall i :: 0 <= i < |ps| ==> ps[i].isFound
    ensures |ActiveIds(ps)| == 0
  {
  }

  /** When the only change was at seat `t`, whose player was unfound, and
      nobody is unfound afterwards, that player was the first unfound one. */
  lemma FoundLastAt(ps: seq<Player>, u: seq<Player>, t: int)
    requires |u| == |ps| && 0 <= t < |u| && !ps[t].isFound
    requires forall i :: 0 <= i < |u| && i != t ==> u[i] == ps[i]
    requires forall i :: 0 <= i < |u| ==> u[i].isFound
    ensures FirstUnfound(ps) == Some(ps[t])
  {
    var j :| 0 <= j < |ps| && ps[j] == FirstUnfound(ps).value && !ps[j].isFound &&
             forall k :: 0 <= k < j ==> ps[k].isFound;
    assert !u[j].isFound ==> j == t;
  }

  /** Who `EndGame` crowns when the guess changed at most seat `t`, whose
      player was still in the game before it: a player still left, or else
      the player at seat `t`. */
  lemma EndGameWinner(st: GameState, u: seq<Player>, draw: TitleDraw, t: int)
    requires Ids(u) == Ids(st.players) && 0 <= t < |u| && !st.players[t].isFound
    requires forall i :: 0 <= i < |u| && i != t ==> u[i] == st.players[i]
    ensures var e := EndGame(st, u, draw);
            e.winner.Some? &&
            (HasActive(u, e.winner.value.id) || (|ActiveIds(u)| == 0 && e.winner.value.id == u[t].id))
  {
    match FirstUnfound(u)
    case Some(p) =>
      var i :| 0 <= i < |u| && u[i] == p && !u[i].isFound && forall j :: 0 <= j < i ==> u[j].isFound;
      assert HasActive(u, p.id);
    case None =>
      NoneLeft(u);
      FoundLastAt(st.players, u, t);
      assert Ids(u)[t] == Ids(st.players)[t];
  }

  /** The guess that leaves at most one player in the game ends it. The
      winner is the player still left, or the target just found when the
      guess found the last one. */
  lemma SubmitEndsGame(st: GameState, guess: seq<char>, guesserId: int, targetId: int,
                       draw: TitleDraw)
    requires SubmitReady(st, guess) && Accepts(st, guesserId, targetId)
    ensures var r := SubmitGuess(st, guess, guesserId, targetId, draw);
            var u := Recorded(st, guess, guesserId, targetId);
            |ActiveIds(u)| <= 1 ==>
              r.phase == GameOver && r.winner.Some? && r.winner.value in r.players &&
              (HasActive(u, r.winner.value.id) ||
               (|ActiveIds(u)| == 0 && r.winner.value.id == targetId))
  {
    var u := Recorded(st, guess, guesserId, targetId);
    TargetAfterGuess(st, guess, guesserId, targetId);
    RecordedRoster(st, guess, guesserId, targetId);
    if |ActiveIds(u)| <= 1 {
      var r := SubmitGuess(st, guess, guesserId, targetId, draw);
      assert r == EndGame(st, u, draw);
      EndGameWinner(st, u, draw, SeatOf(st.players, targetId));
    }
  }

  /** At game over the winner holds the drawn winning title and every other
      player, in seating order, the next title from the losing pool. */
  lemma SubmitTitles(st: GameState, guess: seq<char>, guesserId: int, targetId: int,
                     draw: TitleDraw)
    requires SubmitReady(st, guess) && Accepts(st, guesserId, targetId)
    ensures var r := SubmitGuess(st, guess, guesserId, targetId, draw);
            var u := Recorded(st, guess, guesserId, targetId);
            |ActiveIds(u)| <= 1 && r.winner.Some? ==>
              r.winner.value.title == WinningTitle(draw.winningTitles, draw.pick) &&
              forall i :: 0 <= i < |r.players| && r.players[i].id != r.winner.value.id ==>
                r.players[i].title ==
                Some(LosingTitle(draw.shuffledLosing, LosersBefore(Ids(st.players), r.winner.value.id, i)))
  {
    var u := Recorded(st, guess, guesserId, targetId);
    var r := SubmitGuess(st, guess, guesserId, targetId, draw);
    TargetAfterGuess(st, guess, guesserId, targetId);
    if |ActiveIds(u)| <= 1 {
      var e := EndGame(st, u, draw);
      assert r == e;
    }
  }

  /** In a game in progress the current pair passes the guard of
      `handleSubmitGuess`. */
  lemma PlayingAccepts(st: GameState)
    requires PlayingInvariant(st) && st.phase == Playing
    ensures Accepts(st, st.currentPlayerId, st.targetPlayerId)
  {
    var ps := st.players;
    var i :| 0 <= i < |ps| && ps[i].id == st.targetPlayerId && !ps[i].isFound;
    SeatOfUnique(ps, i);
  }

  /** Submitting a guess of the right length keeps a game in progress
      well formed: it either ends the game or hands the turn to two distinct
      players who are both still in. */
  lemma SubmitKeepsInvariant(st: GameState, guess: seq<char>, guesserId: int, targetId: int,
                             draw: TitleDraw)
    requires PlayingInvariant(st) && SubmitReady(st, guess)
    ensures PlayingInvariant(SubmitGuess(st, guess, guesserId, targetId, draw))
  {
    if Accepts(st, guesserId, targetId) && st.phase == Playing {
      var u := Recorded(st, guess, guesserId, targetId);
      var r := SubmitGuess(st, guess, guesserId, targetId, draw);
      if |ActiveIds(u)| <= 1 {
        SubmitEndsGame(st, guess, guesserId, targetId, draw);
      } else {
        SubmitRotates(st, guess, guesserId, targetId, draw);
        RecordedSecretsFit(st, guess, guesserId, targetId);
      }
    }
  }

  /** Recording a guess leaves every secret as it was. */
  lemma RecordedSecretsFit(st: GameState, guess: seq<char>, guesserId: int, targetId: int)
    requires SubmitReady(st, guess) && Accepts(st, guesserId, targetId)
    requires SecretsFit(st.players, st.settings.value.digitCount)
    ensures SecretsFit(Recorded(st, guess, guesserId, targetId), st.settings.value.digitCount)
  {
    var u := Recorded(st, guess, guesserId, targetId);
    assert forall i :: 0 <= i < |u| ==> u[i].secretNumber == st.players[i].secretNumber;
  }

  /** A timeout keeps a game in progress well formed. */
  lemma TimeoutKeepsInvariant(st: GameState)
    requires PlayingInvariant(st) && st.phase == Playing
    ensures PlayingInvariant(TurnTimeout(st))
  {
  }

  /** A timeout moves the turn exactly as a guess at the current target
      that misses would: same next guesser, same next target, and the game
      goes on. */
  lemma TimeoutIsMissedGuess(st: GameState, guess: seq<char>, draw: TitleDraw)
    requires PlayingInvariant(st) && st.phase == Playing && SubmitReady(st, guess)
    requires guess != st.players[SeatOf(st.players, st.targetPlayerId)].secretNumber
    ensures var r := SubmitGuess(st, guess, st.currentPlayerId, st.targetPlayerId, draw);
            var q := TurnTimeout(st);
            r.phase == q.phase && r.winner == q.winner &&
            r.currentPlayerId == q.currentPlayerId && r.targetPlayerId == q.targetPlayerId
  {
    var g, t := st.currentPlayerId, st.targetPlayerId;
    PlayingAccepts(st);
    NewEntryMeaning(st, guess, g, t);
    var u := Recorded(st, guess, g, t);
    MissKeepsSeating(st.players, t, NewEntry(st, guess, g, t));
    SameSeatingLists(st.players, u);
    CalculateNextTurnSameSeating(st.players, u, g, t, false);
    SubmitRotates(st, guess, g, t, draw);
  }

  /** The roster `handleSetupComplete` seats: identifiers are seat numbers,
      nobody is found, histories are empty, the local player holds the
      chosen secret and each bot a generated one. */
  lemma SetupSeats(st: GameState, secret: seq<char>, botDraws: seq<seq<nat>>)
    requires |botDraws| == |st.botNames|
    requires forall i, j :: 0 <= i < |botDraws| && 0 <= j < |botDraws[i]| ==> botDraws[i][j] < 10
    requires st.settings.Some? && |st.players| > 0
    requires forall i :: 0 <= i < |botDraws| ==> |botDraws[i]| == st.settings.value.digitCount
    ensures var r := SetupComplete(st, secret, botDraws);
            r.phase == Playing && r.currentPlayerId == LocalPlayerId &&
            |r.players| == |st.botNames| + 1 &&
            r.players[0] == st.players[0].(secretNumber := secret) &&
            (forall i :: 1 <= i < |r.players| ==>
               r.players[i].name == st.botNames[i - 1] && IsDigits(r.players[i].secretNumber) &&
               |r.players[i].secretNumber| == st.settings.value.digitCount &&
               r.players[i].id == i && !r.players[i].isFound && r.players[i].history == []) &&
            (|r.players| > 1 ==> r.targetPlayerId == 1)
  {
  }

  /** Starting from the lobby with at least one bot and entering a secret of
      the configured length yields a game in progress that satisfies
      `PlayingInvariant`: the local player (seat 0) guesses and the first
      bot (seat 1) is the target. */
  lemma SetupEstablishesInvariant(st: GameState, lobby: seq<LobbySeat>, s: GameSettings,
                                  secret: seq<char>, botDraws: seq<seq<nat>>)
    requires exists i :: 0 <= i < |lobby| && !lobby[i].isBot
    requires exists i :: 0 <= i < |lobby| && lobby[i].isBot
    requires |botDraws| == |BotNames(lobby)|
    requires forall i :: 0 <= i < |botDraws| ==> |botDraws[i]| == s.digitCount
    requires forall i, j :: 0 <= i < |botDraws| && 0 <= j < |botDraws[i]| ==> botDraws[i][j] < 10
    requires |secret| == s.digitCount && IsDigits(secret)
    ensures var r := SetupComplete(StartGame(st, lobby, s), secret, botDraws);
            r.phase == Playing && PlayingInvariant(r) &&
            r.currentPlayerId == LocalPlayerId && r.targetPlayerId == 1
  {
    var st1 := StartGame(st, lobby, s);
    assert st1.phase == Setup && st1.settings == Some(s) && |st1.players| == 1 &&
           st1.botNames == BotNames(lobby);
    SetupSeats(st1, secret, botDraws);
    var r := SetupComplete(st1, secret, botDraws);
    assert |r.players| >= 2 by {
      assert |BotNames(lobby)| > 0;
    }
    forall i | 0 <= i < |r.players|
      ensures r.players[i].id == i && !r.players[i].isFound
    {
      if i == 0 {
        assert r.players[0] == st1.players[0].(secretNumber := secret);
      }
    }
    NumberedSeats(r.players);
    assert SecretsFit(r.players, s.digitCount) by {
      assert r.players[0].secretNumber == secret;
      forall i | 1 <= i < |r.players|
        ensures |r.players[i].secretNumber| == s.digitCount && IsDigits(r.players[i].secretNumber)
      {
      }
    }
  }

  /** A roster of at least two unfound players seated by number. */
  lemma NumberedSeats(ps: seq<Player>)
    requires |ps| >= 2 && forall i :: 0 <= i < |ps| ==> ps[i].id == i && !ps[i].isFound
    ensures UniqueIds(ps) && |ActiveIds(ps)| >= 2 && HasActive(ps, 0) && HasActive(ps, 1)
  {
    NoneFoundAllActive(ps);
    assert Ids(ps)[0] == 0 && Ids(ps)[1] == 1;
  }
}
