/** The records of the game: a guess as stored in a player's history, a player,
    the game settings and the screen phase, plus the small queries over a
    roster that every other module shares. */
module Types {

  /** JavaScript's `undefined`/`null` for an optional value. */
  datatype Option<+T> = None | Some(value: T)

  /** A digit character as produced by the numpad or the random digit
      generator. Secrets and guesses are sequences of these. */
  predicate IsDigit(c: char) {
    '0' <= c <= '9'
  }

  predicate IsDigits(s: seq<char>) {
    forall i :: 0 <= i < |s| ==> IsDigit(s[i])
  }

  /** One scored guess, appended to the history of the player it targeted. */
  datatype Guess = Guess(
    value: string,
    correct: nat,
    misplaced: nat,
    guesserId: int,
    guesserName: string)

  /** A seated player. `title` is only set when the game is over; the chat
      bubble (`lastMessage`) is not modelled. */
  datatype Player = Player(
    id: int,
    name: string,
    secretNumber: seq<char>,
    isFound: bool,
    history: seq<Guess>,
    title: Option<string>)

  datatype GameSettings = GameSettings(
    playerCount: int,
    digitCount: int,
    turnTimeLimit: int)

  datatype GamePhase = Home | Join | Lobby | Setup | Playing | GameOver

  /** Identifiers in seating order (`allPlayers.map(p => p.id)`). */
  function Ids(ps: seq<Player>): (r: seq<int>)
    ensures |r| == |ps|
    ensures forall i :: 0 <= i < |ps| ==> r[i] == ps[i].id
  {
    if |ps| == 0 then [] else [ps[0].id] + Ids(ps[1..])
  }

  predicate UniqueIds(ps: seq<Player>) {
    forall i, j :: 0 <= i < j < |ps| ==> ps[i].id != ps[j].id
  }

  /** Some player seated in `ps` has identifier `x` and is not found. */
  ghost predicate HasActive(ps: seq<Player>, x: int) {
    exists i :: 0 <= i < |ps| && ps[i].id == x && !ps[i].isFound
  }

  /** Identifiers of the players not yet found, in seating order
      (`allPlayers.filter(p => !p.isFound).map(p => p.id)`). */
  function ActiveIds(ps: seq<Player>): (r: seq<int>)
    ensures |r| <= |ps|
    ensures forall x :: x in r <==> HasActive(ps, x)
  {
    if |ps| == 0 then []
    else
      var rest := ActiveIds(ps[1..]);
      assert forall i :: 0 <= i < |ps[1..]| ==> ps[1..][i] == ps[i + 1];
      if ps[0].isFound then rest else [ps[0].id] + rest
  }

  /** With unique identifiers, a seated player's id is active exactly when
      that player is not found. */
  lemma ActiveIdOfSeat(ps: seq<Player>, i: int)
    requires UniqueIds(ps) && 0 <= i < |ps|
    ensures ps[i].id in ActiveIds(ps) <==> !ps[i].isFound
  {
  }

  /** JavaScript's `indexOf`/`findIndex` for an equality test: the first
      index holding `x`, or -1 when there is none. */
  function IndexOf<T(==)>(s: seq<T>, x: T): (r: int)
    ensures -1 <= r < |s|
    ensures r == -1 <==> x !in s
    ensures r >= 0 ==> s[r] == x && forall j :: 0 <= j < r ==> s[j] != x
  {
    if |s| == 0 then -1
    else if s[0] == x then 0
    else
      var k := IndexOf(s[1..], x);
      assert x in s && s[0] != x ==> x in s[1..] by {
        if x in s && s[0] != x {
          var j :| 0 <= j < |s| && s[j] == x;
          assert s[1..][j - 1] == x;
        }
      }
      if k == -1 then -1 else k + 1
  }

  /** First seat holding `id`, or -1 (`allPlayers.findIndex(p => p.id === id)`). */
  function SeatOf(ps: seq<Player>, id: int): (r: int)
    ensures -1 <= r < |ps|
    ensures r == -1 <==> forall i :: 0 <= i < |ps| ==> ps[i].id != id
    ensures r >= 0 ==> ps[r].id == id && forall i :: 0 <= i < r ==> ps[i].id != id
  {
    var ids := Ids(ps);
    assert forall i :: 0 <= i < |ps| ==> ids[i] == ps[i].id;
    IndexOf(ids, id)
  }

  lemma SeatOfUnique(ps: seq<Player>, i: int)
    requires UniqueIds(ps) && 0 <= i < |ps|
    ensures SeatOf(ps, ps[i].id) == i
  {
  }

  /** `players.find(p => p.id === id)`. */
  function FindPlayer(ps: seq<Player>, id: int): (r: Option<Player>)
    ensures r.None? <==> forall i :: 0 <= i < |ps| ==> ps[i].id != id
    ensures r.Some? ==> r.value in ps && r.value.id == id
    ensures r.Some? ==> exists i :: 0 <= i < |ps| && ps[i] == r.value &&
                          forall j :: 0 <= j < i ==> ps[j].id != id
  {
    var k := SeatOf(ps, id);
    if k == -1 then None else Some(ps[k])
  }

  /** Two rosters seat the same players in the same order with the same
      found flags; they may differ in names, secrets, histories and titles. */
  predicate SameSeating(ps: seq<Player>, qs: seq<Player>) {
    |ps| == |qs| &&
    forall i :: 0 <= i < |ps| ==> ps[i].id == qs[i].id && ps[i].isFound == qs[i].isFound
  }

  /** The identifier and active lists depend only on the seating. */
  lemma {:induction false} SameSeatingLists(ps: seq<Player>, qs: seq<Player>)
    requires SameSeating(ps, qs)
    ensures Ids(ps) == Ids(qs) && ActiveIds(ps) == ActiveIds(qs)
    decreases |ps|
  {
    if |ps| > 0 {
      assert SameSeating(ps[1..], qs[1..]) by {
        assert forall i :: 0 <= i < |ps| - 1 ==> ps[1..][i] == ps[i + 1] && qs[1..][i] == qs[i + 1];
      }
      SameSeatingLists(ps[1..], qs[1..]);
    }
  }

  /** When nobody is found yet, every seated identifier is active. */
  lemma {:induction false} NoneFoundAllActive(ps: seq<Player>)
    requires forall i :: 0 <= i < |ps| ==> !ps[i].isFound
    ensures ActiveIds(ps) == Ids(ps)
    decreases |ps|
  {
    if |ps| > 0 {
      assert forall i :: 0 <= i < |ps| - 1 ==> ps[1..][i] == ps[i + 1];
      NoneFoundAllActive(ps[1..]);
    }
  }
}
