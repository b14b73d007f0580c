/** Concrete runs of the turn rotation on a four-player table: seats A, B,
    C, D hold ids 0, 1, 2, 3 and play in that order. */
module TurnExamples {
  import opened Types
  import opened Rotation

  function Seat(id: int, found: bool): Player {
    Player(id, "", "", found, [], None)
  }

  /** A four-seat table with the given found flags. */
  function Table(a: bool, b: bool, c: bool, d: bool): seq<Player> {
    [Seat(0, a), Seat(1, b), Seat(2, c), Seat(3, d)]
  }

  lemma TableShape(a: bool, b: bool, c: bool, d: bool)
    ensures Ids(Table(a, b, c, d)) == [0, 1, 2, 3]
    ensures ActiveIds(Table(a, b, c, d)) ==
            (if a then [] else [0]) + (if b then [] else [1]) +
            (if c then [] else [2]) + (if d then [] else [3])
  {
    var ps := Table(a, b, c, d);
    assert Ids(ps) == [0, 1, 2, 3] by {
      assert forall i :: 0 <= i < 4 ==> Ids(ps)[i] == i;
    }
    assert ps[1..] == [Seat(1, b), Seat(2, c), Seat(3, d)];
    ActiveTail(b, c, d);
  }

  /** The found flags of seats B, C and D decide the active ids among them. */
  lemma ActiveTail(b: bool, c: bool, d: bool)
    ensures ActiveIds([Seat(1, b), Seat(2, c), Seat(3, d)]) ==
            (if b then [] else [1]) + (if c then [] else [2]) + (if d then [] else [3])
  {
    var ps := [Seat(1, b), Seat(2, c), Seat(3, d)];
    assert ps[1..] == [Seat(2, c), Seat(3, d)];
    assert ps[1..][1..] == [Seat(3, d)];
    assert ActiveIds(ps[1..][1..]) == if d then [] else [3];
  }

  lemma RoundOnB()
    ensures EligibleIds([0, 1, 2, 3], [0, 1, 2, 3], 1) == [0, 2, 3]
    ensures IndexOf([0, 2, 3], 0) == 0 && IndexOf([0, 2, 3], 2) == 1 && IndexOf([0, 2, 3], 3) == 2
  {
    assert [0, 1, 2, 3][1..] == [1, 2, 3] && [1, 2, 3][1..] == [2, 3] && [2, 3][1..] == [3];
    assert [0, 2, 3][1..] == [2, 3];
  }

  lemma RoundOnC()
    ensures EligibleIds([0, 1, 2, 3], [0, 1, 2, 3], 2) == [0, 1, 3]
  {
  }

  lemma ScanFromB()
    ensures SeatOf(Table(false, false, false, false), 1) == 1
    ensures HitAt(Table(false, false, false, false), [0, 1, 2, 3], 1, 1)
    ensures ScanNextTarget(Table(false, false, false, false), [0, 1, 2, 3], 1, 4) == 2
  {
    TableShape(false, false, false, false);
    ScanStopsAtNext(Table(false, false, false, false), [0, 1, 2, 3], 1, 4);
  }

  /** The first round targets B and is guessed by A, then C, then D. */
  lemma FirstRound()
    ensures CalculateNextTurn(Table(false, false, false, false), 0, 1, false) == Some(Turn(2, 1))
    ensures CalculateNextTurn(Table(false, false, false, false), 2, 1, false) == Some(Turn(3, 1))
  {
    TableShape(false, false, false, false);
    RoundOnB();
  }

  /** After D, the last guesser of B's round, C becomes the target and A
      guesses first. */
  lemma SecondRound()
    ensures CalculateNextTurn(Table(false, false, false, false), 3, 1, false) == Some(Turn(0, 2))
  {
    TableShape(false, false, false, false);
    ScanFromB();
    RoundOnB();
    RoundOnC();
  }

  lemma ScanAfterB()
    ensures SeatOf(Table(false, true, false, false), 1) == 1
    ensures HitAt(Table(false, true, false, false), [0, 2, 3], 1, 1)
    ensures ScanNextTarget(Table(false, true, false, false), [0, 2, 3], 1, 4) == 2
    ensures EligibleIds([0, 1, 2, 3], [0, 2, 3], 2) == [0, 3]
  {
    TableShape(false, true, false, false);
    ScanStopsAtNext(Table(false, true, false, false), [0, 2, 3], 1, 4);
  }

  /** A finds B on the first guess: the round ends at once and C becomes
      the target, guessed by A. */
  lemma FoundMidRound()
    ensures CalculateNextTurn(Table(false, true, false, false), 0, 1, true) == Some(Turn(0, 2))
  {
    TableShape(false, true, false, false);
    ScanAfterB();
  }

  lemma ScanAfterC()
    ensures SeatOf(Table(false, true, true, false), 2) == 2
    ensures HitAt(Table(false, true, true, false), [0, 3], 2, 1)
    ensures ScanNextTarget(Table(false, true, true, false), [0, 3], 2, 4) == 3
  {
    TwoLeftShape();
    ScanStopsAtNext(Table(false, true, true, false), [0, 3], 2, 4);
  }

  lemma RoundOnD()
    ensures EligibleIds([0, 1, 2, 3], [0, 3], 3) == [0]
  {
  }

  lemma ScanAfterD()
    ensures SeatOf(Table(false, true, true, false), 3) == 3
    ensures HitAt(Table(false, true, true, false), [0, 3], 3, 1)
    ensures ScanNextTarget(Table(false, true, true, false), [0, 3], 3, 4) == 0
  {
    TwoLeftShape();
    ScanStopsAtNext(Table(false, true, true, false), [0, 3], 3, 4);
  }

  lemma RoundOnA()
    ensures EligibleIds([0, 1, 2, 3], [0, 3], 0) == [3]
  {
  }

  /** With B and C found, the target moves on to D, and after A's single
      guess the scan wraps round the table to A. */
  lemma TwoLeft()
    ensures CalculateNextTurn(Table(false, true, true, false), 3, 2, true) == Some(Turn(0, 3))
    ensures CalculateNextTurn(Table(false, true, true, false), 0, 3, false) == Some(Turn(3, 0))
  {
    TargetD();
    WrapToA();
  }

  lemma TargetD()
    ensures CalculateNextTurn(Table(false, true, true, false), 3, 2, true) == Some(Turn(0, 3))
  {
    TwoLeftShape();
    ScanAfterC();
    RoundOnD();
  }

  lemma WrapToA()
    ensures CalculateNextTurn(Table(false, true, true, false), 0, 3, false) == Some(Turn(3, 0))
  {
    TwoLeftShape();
    RoundOnD();
    assert IndexOf([0], 0) == 0;
    NewRoundFromD();
  }

  lemma TwoLeftShape()
    ensures Ids(Table(false, true, true, false)) == [0, 1, 2, 3]
    ensures ActiveIds(Table(false, true, true, false)) == [0, 3]
    ensures UniqueIds(Table(false, true, true, false))
  {
    TableShape(false, true, true, false);
  }

  lemma NewRoundFromD()
    requires UniqueIds(Table(false, true, true, false))
    requires |ActiveIds(Table(false, true, true, false))| >= 2
    ensures NewRoundTurn(Table(false, true, true, false), 3) == Turn(3, 0)
  {
    TwoLeftShape();
    ScanAfterD();
    RoundOnA();
  }

  /** Once only A is left there is no next turn: the game is over. */
  lemma OneLeft()
    ensures CalculateNextTurn(Table(false, true, true, true), 0, 3, true) == None
  {
    TableShape(false, true, true, true);
  }

  /** A seat whose id equals the "no target yet" value -1 never stops the
      scan, even though its player is still in the game: starting after
      seat 0, the scan passes over seat 1 and settles on seat 2. */
  lemma ScanSkipsSentinel()
    ensures !Stops([Seat(0, false), Seat(NoTarget, false), Seat(2, false)], [0, NoTarget, 2], 1)
    ensures HitAt([Seat(0, false), Seat(NoTarget, false), Seat(2, false)], [0, NoTarget, 2], 0, 2)
    ensures ScanNextTarget([Seat(0, false), Seat(NoTarget, false), Seat(2, false)], [0, NoTarget, 2], 0, 3) == 2
  {
  }
}
