/** The host's controls in the lobby: the -/+ buttons of the player-count
    and digit-count cards, the turn-time buttons, and the start button.
    Only the host may change a setting; every change is clamped to the
    card's range and every turn time is one of the offered options. */
module Lobby {
  import opened Types

  /** The two setting cards: players 2..6, digits 3..6. */
  const MinPlayers: int := 2
  const MaxPlayers: int := 6
  const MinDigits: int := 3
  const MaxDigits: int := 6

  /** The turn-time buttons, in seconds; 0 switches the timer off. */
  const TimeOptions: seq<int> := [0, 15, 30, 45, 60]

  /** A setting card's "-" handler: `Math.max(min, value - 1)`. */
  function Decrement(value: int, min: int): (r: int)
    ensures r >= min
    ensures r == value - 1 || r == min
    ensures value > min ==> r == value - 1
  {
    if value - 1 > min then value - 1 else min
  }

  /** A setting card's "+" handler: `Math.min(max, value + 1)`. */
  function Increment(value: int, max: int): (r: int)
    ensures r <= max
    ensures r == value + 1 || r == max
    ensures value < max ==> r == value + 1
  {
    if value + 1 < max then value + 1 else max
  }

  /** A host action in the lobby. `PickTime(k)` is the `k`-th turn-time
      button. */
  datatype Control = FewerPlayers | MorePlayers | FewerDigits | MoreDigits | PickTime(k: nat)

  /** Whether the control's button can be pressed: setting cards are
      disabled for guests and at the end of their range; the time buttons
      are disabled for guests. */
  predicate Enabled(s: GameSettings, isHost: bool, c: Control) {
    isHost &&
    match c
    case FewerPlayers => s.playerCount != MinPlayers
    case MorePlayers => s.playerCount != MaxPlayers
    case FewerDigits => s.digitCount != MinDigits
    case MoreDigits => s.digitCount != MaxDigits
    case PickTime(k) => k < |TimeOptions|
  }

  /** The settings after pressing a control: a disabled button does
      nothing, and the handlers behind the buttons return early for guests;
      otherwise the one setting the button controls is replaced, a count by
      its clamped step and the turn time by the option pressed. */
  function Press(s: GameSettings, isHost: bool, c: Control): (r: GameSettings)
    ensures !isHost ==> r == s
    ensures c.FewerPlayers? || c.MorePlayers? ==> r.digitCount == s.digitCount && r.turnTimeLimit == s.turnTimeLimit
    ensures c.FewerDigits? || c.MoreDigits? ==> r.playerCount == s.playerCount && r.turnTimeLimit == s.turnTimeLimit
    ensures c.PickTime? ==> r.playerCount == s.playerCount && r.digitCount == s.digitCount
    ensures !Enabled(s, isHost, c) ==> r == s
    ensures Enabled(s, isHost, c) && c.FewerPlayers? ==> r.playerCount == Decrement(s.playerCount, MinPlayers)
    ensures Enabled(s, isHost, c) && c.MorePlayers? ==> r.playerCount == Increment(s.playerCount, MaxPlayers)
    ensures Enabled(s, isHost, c) && c.FewerDigits? ==> r.digitCount == Decrement(s.digitCount, MinDigits)
    ensures Enabled(s, isHost, c) && c.MoreDigits? ==> r.digitCount == Increment(s.digitCount, MaxDigits)
    ensures Enabled(s, isHost, c) && c.PickTime? ==> c.k < |TimeOptions| && r.turnTimeLimit == TimeOptions[c.k]
  {
    if !Enabled(s, isHost, c) then s
    else
      match c
      case FewerPlayers => s.(playerCount := Decrement(s.playerCount, MinPlayers))
      case MorePlayers => s.(playerCount := Increment(s.playerCount, MaxPlayers))
      case FewerDigits => s.(digitCount := Decrement(s.digitCount, MinDigits))
      case MoreDigits => s.(digitCount := Increment(s.digitCount, MaxDigits))
      case PickTime(k) => s.(turnTimeLimit := TimeOptions[k])
  }

  /** Settings inside the ranges the lobby offers. */
  predicate InRange(s: GameSettings) {
    MinPlayers <= s.playerCount <= MaxPlayers &&
    MinDigits <= s.digitCount <= MaxDigits &&
    s.turnTimeLimit in TimeOptions
  }

  /** Every control keeps the settings inside the offered ranges, and moves
      a count by at most one step. */
  lemma PressInRange(s: GameSettings, isHost: bool, c: Control)
    requires InRange(s)
    ensures var r := Press(s, isHost, c);
            InRange(r) &&
            -1 <= r.playerCount - s.playerCount <= 1 && -1 <= r.digitCount - s.digitCount <= 1
  {
  }

  /** Applying a sequence of controls in order. */
  function PressAll(s: GameSettings, isHost: bool, cs: seq<Control>): GameSettings
    decreases |cs|
  {
    if |cs| == 0 then s else PressAll(Press(s, isHost, cs[0]), isHost, cs[1..])
  }

  /** However the host presses the controls, the settings stay in range; a
      guest's presses change nothing at all. */
  lemma {:induction false} PressAllInRange(s: GameSettings, isHost: bool, cs: seq<Control>)
    requires InRange(s)
    ensures InRange(PressAll(s, isHost, cs))
    ensures !isHost ==> PressAll(s, isHost, cs) == s
    decreases |cs|
  {
    if |cs| > 0 {
      PressInRange(s, isHost, cs[0]);
      PressAllInRange(Press(s, isHost, cs[0]), isHost, cs[1..]);
    }
  }

  /** A count outside its card's range (never produced by the lobby) is
      clamped to the bound it is past by one press of that bound's button:
      "+" on a count above the maximum sets the maximum, and "-" on a count
      below the minimum sets the minimum. */
  lemma ClampsBack(s: GameSettings)
    ensures s.playerCount > MaxPlayers ==> Press(s, true, MorePlayers).playerCount == MaxPlayers
    ensures s.playerCount < MinPlayers ==> Press(s, true, FewerPlayers).playerCount == MinPlayers
    ensures s.digitCount > MaxDigits ==> Press(s, true, MoreDigits).digitCount == MaxDigits
    ensures s.digitCount < MinDigits ==> Press(s, true, FewerDigits).digitCount == MinDigits
  {
  }

  /** The start button: shown only to the host, and enabled for a lobby of
      `lobbySize` players exactly when `2 <= lobbySize <= playerCount`. */
  predicate StartEnabled(s: GameSettings, isHost: bool, lobbySize: int) {
    isHost && !(lobbySize < 2 || lobbySize > s.playerCount)
  }

  /** Starting is possible exactly for a host whose lobby holds between two
      players and the configured count, which the count card caps at six. */
  lemma StartEnabledIff(s: GameSettings, isHost: bool, lobbySize: int)
    requires InRange(s)
    ensures StartEnabled(s, isHost, lobbySize) <==>
            isHost && MinPlayers <= lobbySize <= s.playerCount
    ensures StartEnabled(s, isHost, lobbySize) ==> lobbySize <= MaxPlayers
  {
  }
}
