/** Turn rotation (`calculateNextTurn`): round-robin with elimination. The
    target stays fixed while every other active player, in seating order,
    guesses once; then the target advances cyclically to the next active
    seat and the first active non-target seat starts the new round. */
module Rotation {
  import opened Types

  datatype Turn = Turn(nextGuesserId: int, nextTargetId: int)

  /** `ids.filter(id => active.includes(id) && id !== target)`. */
  function EligibleIds(ids: seq<int>, active: seq<int>, target: int): (r: seq<int>)
    ensures |r| <= |ids|
  {
    if |ids| == 0 then []
    else
      var rest := EligibleIds(ids[1..], active, target);
      if ids[0] in active && ids[0] != target then [ids[0]] + rest else rest
  }

  /** The cycle holds exactly the listed identifiers that are active and
      are not the target. */
  lemma {:induction false} EligibleMembers(ids: seq<int>, active: seq<int>, target: int)
    ensures forall x :: x in EligibleIds(ids, active, target) <==>
                        x in ids && x in active && x != target
    decreases |ids|
  {
    if |ids| > 0 {
      EligibleMembers(ids[1..], active, target);
      assert forall x :: x in ids <==> x == ids[0] || x in ids[1..];
    }
  }

  /** Seat `i` may guess against `target`: it is not found and is not the target. */
  predicate Eligible(ps: seq<Player>, target: int, i: int)
    requires 0 <= i < |ps|
  {
    !ps[i].isFound && ps[i].id != target
  }

  /** The guessing cycle for `target`, in seating order. */
  function GuessersFor(ps: seq<Player>, target: int): seq<int>
  {
    EligibleIds(Ids(ps), ActiveIds(ps), target)
  }

  /** Cursor after `k` steps of `currentIndex = (currentIndex + 1) % n`. */
  function Cyc(n: nat, start: int, k: int): int
    requires n > 0
  {
    (start + k) % n
  }

  /** The value of `nextTargetId` while the scan has not found a target yet. */
  const NoTarget: int := -1

  /** The scan stops at seat `i`: its id is active, and it is not the
      `-1` sentinel, which would leave the loop condition true. */
  predicate Stops(ps: seq<Player>, active: seq<int>, i: int)
    requires 0 <= i < |ps|
  {
    ps[i].id in active && ps[i].id != NoTarget
  }

  ghost predicate HitAt(ps: seq<Player>, active: seq<int>, start: int, k: int)
    requires |ps| > 0
  {
    Stops(ps, active, Cyc(|ps|, start, k))
  }

  /** The `do … while (nextTargetId === -1)` scan from seat `cur`: returns
      the seat where it stops. `fuel` bounds the iterations still allowed;
      the precondition that a stopping seat lies within `fuel` steps is the
      termination argument. */
  function ScanNextTarget(ps: seq<Player>, active: seq<int>, cur: int, fuel: nat): (r: int)
    requires |ps| > 0 && -1 <= cur < |ps| && fuel <= |ps|
    requires exists k :: 1 <= k <= fuel && HitAt(ps, active, cur, k)
    ensures 0 <= r < |ps| && ps[r].id in active && ps[r].id != NoTarget
    ensures exists k :: 1 <= k <= fuel && r == Cyc(|ps|, cur, k) &&
              forall k' :: 1 <= k' < k ==> !HitAt(ps, active, cur, k')
    decreases fuel
  {
    var next := (cur + 1) % |ps|;
    if Stops(ps, active, next) then
      assert next == Cyc(|ps|, cur, 1);
      next
    else
      ScanShiftPre(ps, active, cur, next, fuel);
      var r := ScanNextTarget(ps, active, next, fuel - 1);
      ScanShiftPost(ps, active, cur, next, fuel, r);
      r
  }

  /** The `do … while` looks at the seat after `cur` first: when that seat
      is active the scan stops there. */
  lemma ScanStopsAtNext(ps: seq<Player>, active: seq<int>, cur: int, fuel: nat)
    requires |ps| > 0 && -1 <= cur < |ps| && 1 <= fuel <= |ps| && HitAt(ps, active, cur, 1)
    ensures ScanNextTarget(ps, active, cur, fuel) == (cur + 1) % |ps|
  {
  }

  lemma ModPlusN(y: int, n: nat)
    requires n > 0 && 0 <= y <= n
    ensures (y + n) % n == y % n
  {
    if y == n {
      assert (y + n) % n == 0;
      assert y % n == 0;
    } else {
      assert (y + n) % n == y;
    }
  }

  lemma CycStep(n: nat, cur: int, k: int)
    requires n > 0 && -1 <= cur < n && 0 <= k <= n
    ensures Cyc(n, (cur + 1) % n, k) == Cyc(n, cur, k + 1)
  {
    if cur + 1 == n {
      assert (cur + 1) % n == 0;
      ModPlusN(k, n);
      assert cur + k + 1 == k + n;
    } else {
      assert (cur + 1) % n == cur + 1;
    }
  }

  lemma ScanShiftPre(ps: seq<Player>, active: seq<int>, cur: int, next: int, fuel: nat)
    requires |ps| > 0 && -1 <= cur < |ps| && next == (cur + 1) % |ps| && fuel <= |ps|
    requires exists k :: 1 <= k <= fuel && HitAt(ps, active, cur, k)
    requires !HitAt(ps, active, cur, 1)
    ensures fuel >= 1
    ensures exists k :: 1 <= k <= fuel - 1 && HitAt(ps, active, next, k)
  {
    var k :| 1 <= k <= fuel && HitAt(ps, active, cur, k);
    assert k >= 2;
    CycStep(|ps|, cur, k - 1);
    assert HitAt(ps, active, next, k - 1);
  }

  lemma ScanShiftPost(ps: seq<Player>, active: seq<int>, cur: int, next: int, fuel: nat, r: int)
    requires |ps| > 0 && -1 <= cur < |ps| && next == (cur + 1) % |ps| && 1 <= fuel <= |ps|
    requires !HitAt(ps, active, cur, 1)
    requires exists k :: 1 <= k <= fuel - 1 && r == Cyc(|ps|, next, k) &&
               forall k' :: 1 <= k' < k ==> !HitAt(ps, active, next, k')
    ensures exists k :: 1 <= k <= fuel && r == Cyc(|ps|, cur, k) &&
              forall k' :: 1 <= k' < k ==> !HitAt(ps, active, cur, k')
  {
    var k :| 1 <= k <= fuel - 1 && r == Cyc(|ps|, next, k) &&
             forall k' :: 1 <= k' < k ==> !HitAt(ps, active, next, k');
    CycStep(|ps|, cur, k);
    forall k' | 1 <= k' < k + 1 ensures !HitAt(ps, active, cur, k') {
      if k' > 1 {
        CycStep(|ps|, cur, k' - 1);
        assert !HitAt(ps, active, next, k' - 1);
      }
    }
  }

  /** Any stopping seat is reached within `n` steps from any starting cursor. */
  lemma ScanWitness(ps: seq<Player>, active: seq<int>, start: int, j: int)
    requires |ps| > 0 && -1 <= start < |ps| && 0 <= j < |ps| && Stops(ps, active, j)
    ensures exists k :: 1 <= k <= |ps| && HitAt(ps, active, start, k)
  {
    var k := CycReach(|ps|, start, j);
    assert HitAt(ps, active, start, k);
  }

  /** Every seat is reached from any start within `n` steps. */
  lemma CycReach(n: nat, start: int, j: int) returns (k: int)
    requires n > 0 && -1 <= start < n && 0 <= j < n
    ensures 1 <= k <= n && Cyc(n, start, k) == j
  {
    if j > start {
      k := j - start;
      assert start + k == j;
      assert j % n == j;
    } else {
      k := j - start + n;
      assert start + k == j + n;
      ModPlusN(j, n);
      assert j % n == j;
    }
  }

  lemma ActiveIdsDistinct(ps: seq<Player>)
    requires UniqueIds(ps)
    ensures forall i, j :: 0 <= i < j < |ActiveIds(ps)| ==> ActiveIds(ps)[i] != ActiveIds(ps)[j]
  {
    if |ps| > 0 {
      ActiveIdsDistinct(ps[1..]);
      var rest := ActiveIds(ps[1..]);
      if !ps[0].isFound {
        forall x | x in rest ensures x != ps[0].id {
          var i :| 0 <= i < |ps[1..]| && ps[1..][i].id == x && !ps[1..][i].isFound;
          assert ps[1..][i] == ps[i + 1];
        }
        var all := ActiveIds(ps);
        assert all == [ps[0].id] + rest;
        forall i, j | 0 <= i < j < |all| ensures all[i] != all[j] {
          if i == 0 { assert all[j] == rest[j - 1]; assert all[j] in rest; }
          else { assert all[i] == rest[i - 1] && all[j] == rest[j - 1]; }
        }
      }
    }
  }

  /** With two or more active players, some active seat does not hold `t`;
      so `t` has a guesser and the target scan terminates. */
  lemma OtherActive(ps: seq<Player>, t: int)
    requires UniqueIds(ps) && |ActiveIds(ps)| >= 2
    ensures exists i :: 0 <= i < |ps| && ps[i].id != t && ps[i].id in ActiveIds(ps)
    ensures |EligibleIds(Ids(ps), ActiveIds(ps), t)| > 0
  {
    EligibleMembers(Ids(ps), ActiveIds(ps), t);
    ActiveIdsDistinct(ps);
    var a := ActiveIds(ps);
    var x := if a[0] != t then a[0] else a[1];
    assert x in a;
    var i :| 0 <= i < |ps| && ps[i].id == x && !ps[i].isFound;
    assert Ids(ps)[i] == x;
    assert x in EligibleIds(Ids(ps), a, t);
  }

  lemma ScanPossible(ps: seq<Player>, start: int)
    requires UniqueIds(ps) && |ActiveIds(ps)| >= 2 && -1 <= start < |ps|
    ensures exists k :: 1 <= k <= |ps| && HitAt(ps, ActiveIds(ps), start, k)
  {
    OtherActive(ps, NoTarget);
    var i :| 0 <= i < |ps| && ps[i].id != NoTarget && ps[i].id in ActiveIds(ps);
    ScanWitness(ps, ActiveIds(ps), start, i);
  }

  /** Start of a new round (`App.tsx` steps a and b): the first active seat
      cyclically after the old target's seat becomes the target, and the
      first active player other than it guesses. */
  function NewRoundTurn(ps: seq<Player>, lastTargetId: int): (r: Turn)
    requires UniqueIds(ps) && |ActiveIds(ps)| >= 2
    ensures r.nextGuesserId != r.nextTargetId && r.nextTargetId != NoTarget
    ensures HasActive(ps, r.nextGuesserId) && HasActive(ps, r.nextTargetId)
  {
    var active := ActiveIds(ps);
    var start := SeatOf(ps, lastTargetId);
    ScanPossible(ps, start);
    var seat := ScanNextTarget(ps, active, start, |ps|);
    var nextTargetId := ps[seat].id;
    OtherActive(ps, nextTargetId);
    var guessersForNewTarget := EligibleIds(Ids(ps), active, nextTargetId);
    EligibleMembers(Ids(ps), active, nextTargetId);
    assert guessersForNewTarget[0] in guessersForNewTarget;
    Turn(guessersForNewTarget[0], nextTargetId)
  }

  /** `calculateNextTurn(allPlayers, lastGuesserId, lastTargetId, targetWasJustFound)`;
      `None` is the source's `null` (game over). */
  function CalculateNextTurn(ps: seq<Player>, lastGuesserId: int, lastTargetId: int,
                             targetWasJustFound: bool): (r: Option<Turn>)
    requires UniqueIds(ps)
    ensures r.None? <==> |ActiveIds(ps)| <= 1
    ensures r.Some? ==> r.value.nextGuesserId != r.value.nextTargetId
    ensures r.Some? ==> HasActive(ps, r.value.nextGuesserId)
    ensures r.Some? && (targetWasJustFound || HasActive(ps, lastTargetId)) ==>
              HasActive(ps, r.value.nextTargetId)
  {
    var active := ActiveIds(ps);
    if |active| <= 1 then None
    else
      var current := EligibleIds(Ids(ps), active, lastTargetId);
      var lastIdx := IndexOf(current, lastGuesserId);
      var isLastGuesserOfRound := lastIdx == |current| - 1;
      if targetWasJustFound || isLastGuesserOfRound then
        Some(NewRoundTurn(ps, lastTargetId))
      else
        EligibleMembers(Ids(ps), active, lastTargetId);
        Some(NextInRound(current, lastIdx, lastTargetId))
  }

  /** Continuing the round: the guesser after position `lastIdx` of the
      round's guesser list (the first one when `lastIdx` is -1). */
  function NextInRound(current: seq<int>, lastIdx: int, target: int): (r: Turn)
    requires -1 <= lastIdx < |current| - 1
    ensures r.nextGuesserId in current && r.nextTargetId == target
  {
    Turn(current[lastIdx + 1], target)
  }

  // ---------------------------------------------------------------------
  // The guessing cycle in terms of seats: `EligibleIds` keeps seating order.

  predicate Distinct(ids: seq<int>) {
    forall i, j :: 0 <= i < j < |ids| ==> ids[i] != ids[j]
  }

  predicate Keeps(ids: seq<int>, active: seq<int>, t: int, m: int)
    requires 0 <= m < |ids|
  {
    ids[m] in active && ids[m] != t
  }

  lemma IndexOfTail(ids: seq<int>, x: int)
    requires |ids| > 0 && ids[0] != x && x in ids
    ensures x in ids[1..] && IndexOf(ids, x) == IndexOf(ids[1..], x) + 1
  {
  }

  /** One step of `EligibleIds`: the head seat is kept or skipped. */
  lemma EligibleHead(ids: seq<int>, active: seq<int>, t: int)
    requires |ids| > 0
    ensures Keeps(ids, active, t, 0) ==>
            EligibleIds(ids, active, t) == [ids[0]] + EligibleIds(ids[1..], active, t)
    ensures !Keeps(ids, active, t, 0) ==>
            EligibleIds(ids, active, t) == EligibleIds(ids[1..], active, t)
  {
  }

  lemma EligibleLen(ids: seq<int>, active: seq<int>, t: int)
    requires |ids| > 0
    ensures |EligibleIds(ids, active, t)| ==
            |EligibleIds(ids[1..], active, t)| + if Keeps(ids, active, t, 0) then 1 else 0
  {
    EligibleHead(ids, active, t);
  }

  lemma DistinctTail(ids: seq<int>)
    requires Distinct(ids) && |ids| > 0
    ensures Distinct(ids[1..]) && ids[0] !in ids[1..]
  {
  }

  lemma HeadNotInTail(ids: seq<int>)
    requires Distinct(ids) && |ids| > 0
    ensures ids[0] !in ids[1..]
  {
    DistinctTail(ids);
  }

  lemma KeepsTail(ids: seq<int>, active: seq<int>, t: int, m: int)
    requires 0 < m < |ids|
    ensures Keeps(ids, active, t, m) <==> Keeps(ids[1..], active, t, m - 1)
  {
    assert ids[1..][m - 1] == ids[m];
  }

  /** The head of the cycle is the first kept entry. */
  lemma {:induction false} EligibleFirst(ids: seq<int>, active: seq<int>, t: int)
    requires |EligibleIds(ids, active, t)| > 0
    ensures var j := IndexOf(ids, EligibleIds(ids, active, t)[0]);
            0 <= j && forall m :: 0 <= m < j ==> !Keeps(ids, active, t, m)
    decreases |ids|
  {
    EligibleMembers(ids, active, t);
    var f := EligibleIds(ids, active, t);
    assert f[0] in f;
    if !Keeps(ids, active, t, 0) {
      var tail := ids[1..];
      assert f == EligibleIds(tail, active, t);
      EligibleFirst(tail, active, t);
      IndexOfTail(ids, f[0]);
      forall m | 1 <= m < IndexOf(ids, f[0]) ensures !Keeps(ids, active, t, m) {
        KeepsTail(ids, active, t, m);
      }
    }
  }

  /** Entries `k` and `k + 1` of the cycle sit at increasing seats with no
      kept seat between them. */
  ghost predicate NextOk(ids: seq<int>, active: seq<int>, t: int, k: nat)
    requires k + 1 < |EligibleIds(ids, active, t)|
  {
    var f := EligibleIds(ids, active, t);
    var a := IndexOf(ids, f[k]);
    var b := IndexOf(ids, f[k + 1]);
    0 <= a < b && forall m :: a < m < b ==> !Keeps(ids, active, t, m)
  }

  /** Consecutive cycle entries sit at increasing seats with no kept seat between. */
  lemma {:induction false} EligibleNext(ids: seq<int>, active: seq<int>, t: int, k: nat)
    requires Distinct(ids) && k + 1 < |EligibleIds(ids, active, t)|
    ensures NextOk(ids, active, t, k)
    decreases |ids|, 1
  {
    if !Keeps(ids, active, t, 0) {
      NextSkipStep(ids, active, t, k);
    } else if k == 0 {
      NextHead(ids, active, t);
    } else {
      NextKeepStep(ids, active, t, k);
    }
  }

  /** The cases of `EligibleNext` where the head seat is skipped or kept. */
  lemma {:induction false} NextSkipStep(ids: seq<int>, active: seq<int>, t: int, k: nat)
    requires Distinct(ids) && k + 1 < |EligibleIds(ids, active, t)| && !Keeps(ids, active, t, 0)
    ensures NextOk(ids, active, t, k)
    decreases |ids|, 0
  {
    EligibleLen(ids, active, t);
    assert NextOk(ids[1..], active, t, k) by {
      DistinctTail(ids);
      EligibleNext(ids[1..], active, t, k);
    }
    NextSkip(ids, active, t, k);
  }

  lemma {:induction false} NextKeepStep(ids: seq<int>, active: seq<int>, t: int, k: nat)
    requires Distinct(ids) && k + 1 < |EligibleIds(ids, active, t)| && Keeps(ids, active, t, 0)
    requires k >= 1
    ensures NextOk(ids, active, t, k)
    decreases |ids|, 0
  {
    EligibleLen(ids, active, t);
    assert NextOk(ids[1..], active, t, k - 1) by {
      DistinctTail(ids);
      EligibleNext(ids[1..], active, t, k - 1);
    }
    HeadNotInTail(ids);
    NextKeep(ids, active, t, k);
  }

  lemma NextSkip(ids: seq<int>, active: seq<int>, t: int, k: nat)
    requires |ids| > 0 && !Keeps(ids, active, t, 0)
    requires k + 1 < |EligibleIds(ids[1..], active, t)|
    requires NextOk(ids[1..], active, t, k)
    ensures k + 1 < |EligibleIds(ids, active, t)|
    ensures NextOk(ids, active, t, k)
  {
    EligibleMembers(ids, active, t);
    var f := EligibleIds(ids, active, t);
    assert f == EligibleIds(ids[1..], active, t);
    var x, y := f[k], f[k + 1];
    assert x in f && y in f;
    IndexOfTail(ids, x);
    IndexOfTail(ids, y);
    forall m | IndexOf(ids, x) < m < IndexOf(ids, y) ensures !Keeps(ids, active, t, m) {
      KeepsTail(ids, active, t, m);
    }
  }

  lemma NextHead(ids: seq<int>, active: seq<int>, t: int)
    requires Distinct(ids) && 1 < |EligibleIds(ids, active, t)| && Keeps(ids, active, t, 0)
    ensures NextOk(ids, active, t, 0)
  {
    EligibleMembers(ids[1..], active, t);
    var tail := ids[1..];
    var f := EligibleIds(ids, active, t);
    var ft := EligibleIds(tail, active, t);
    assert f == [ids[0]] + ft;
    var y := f[1];
    assert y == ft[0] && y in ft;
    assert ids[0] != y by { assert ids[0] !in tail; }
    IndexOfTail(ids, y);
    EligibleFirst(tail, active, t);
    forall m | 0 < m < IndexOf(ids, y) ensures !Keeps(ids, active, t, m) {
      KeepsTail(ids, active, t, m);
    }
  }

  lemma NextKeep(ids: seq<int>, active: seq<int>, t: int, k: nat)
    requires |ids| > 0 && ids[0] !in ids[1..] && Keeps(ids, active, t, 0) && k >= 1
    requires k < |EligibleIds(ids[1..], active, t)|
    requires NextOk(ids[1..], active, t, k - 1)
    ensures k + 1 < |EligibleIds(ids, active, t)|
    ensures NextOk(ids, active, t, k)
  {
    EligibleMembers(ids[1..], active, t);
    var tail := ids[1..];
    var f := EligibleIds(ids, active, t);
    var ft := EligibleIds(tail, active, t);
    assert f == [ids[0]] + ft;
    var x, y := f[k], f[k + 1];
    assert x == ft[k - 1] && y == ft[k];
    assert x in ft && y in ft;
    assert ids[0] !in tail;
    IndexOfTail(ids, x);
    IndexOfTail(ids, y);
    forall m | IndexOf(ids, x) < m < IndexOf(ids, y) ensures !Keeps(ids, active, t, m) {
      KeepsTail(ids, active, t, m);
    }
  }

  /** No seat after the last cycle entry's seat is kept. */
  ghost predicate LastOk(ids: seq<int>, active: seq<int>, t: int)
    requires |EligibleIds(ids, active, t)| > 0
  {
    var f := EligibleIds(ids, active, t);
    var a := IndexOf(ids, f[|f| - 1]);
    0 <= a && forall m :: a < m < |ids| ==> !Keeps(ids, active, t, m)
  }

  /** Nothing is kept after the seat of the last cycle entry. */
  lemma {:induction false} EligibleLast(ids: seq<int>, active: seq<int>, t: int)
    requires Distinct(ids) && |EligibleIds(ids, active, t)| > 0
    ensures LastOk(ids, active, t)
    decreases |ids|
  {
    EligibleMembers(ids, active, t);
    EligibleMembers(ids[1..], active, t);
    var f := EligibleIds(ids, active, t);
    var tail := ids[1..];
    var ft := EligibleIds(tail, active, t);
    var x := f[|f| - 1];
    assert x in f;
    assert Distinct(tail);
    if |ft| == 0 {
      assert Keeps(ids, active, t, 0) && f == [ids[0]];
      forall m | 0 < m < |ids| ensures !Keeps(ids, active, t, m) {
        KeepsTail(ids, active, t, m);
      }
    } else {
      EligibleLast(tail, active, t);
      assert x == ft[|ft| - 1] && x in ft;
      assert ids[0] != x by {
        if Keeps(ids, active, t, 0) { assert ids[0] !in tail; }
      }
      IndexOfTail(ids, x);
      forall m | IndexOf(ids, x) < m < |ids| ensures !Keeps(ids, active, t, m) {
        KeepsTail(ids, active, t, m);
      }
    }
  }

  lemma KeepsIsEligible(ps: seq<Player>, t: int, m: int)
    requires UniqueIds(ps) && 0 <= m < |ps|
    ensures Keeps(Ids(ps), ActiveIds(ps), t, m) <==> Eligible(ps, t, m)
  {
    ActiveIdOfSeat(ps, m);
  }

  lemma InCycleIsEligible(ps: seq<Player>, t: int, x: int)
    requires UniqueIds(ps)
    ensures x in GuessersFor(ps, t) <==> SeatOf(ps, x) >= 0 && Eligible(ps, t, SeatOf(ps, x))
  {
    EligibleMembers(Ids(ps), ActiveIds(ps), t);
    var a := SeatOf(ps, x);
    if a >= 0 {
      KeepsIsEligible(ps, t, a);
      assert Ids(ps)[a] == x;
    }
  }

  /** The round for the current target is over exactly when the last guesser
      was the last eligible seat. */
  lemma RoundOverIffLastSeat(ps: seq<Player>, lastGuesserId: int, lastTargetId: int)
    requires UniqueIds(ps)
    requires var a := SeatOf(ps, lastGuesserId); a >= 0 && Eligible(ps, lastTargetId, a)
    ensures var g := GuessersFor(ps, lastTargetId);
            var a := SeatOf(ps, lastGuesserId);
            IndexOf(g, lastGuesserId) == |g| - 1 <==>
              forall m :: a < m < |ps| ==> !Eligible(ps, lastTargetId, m)
  {
    var g := GuessersFor(ps, lastTargetId);
    var a := SeatOf(ps, lastGuesserId);
    InCycleIsEligible(ps, lastTargetId, lastGuesserId);
    var k := IndexOf(g, lastGuesserId);
    if k == |g| - 1 {
      LastHasNoSuccessor(ps, lastTargetId, k, a);
    } else {
      var b := NotLastHasSuccessor(ps, lastTargetId, k, a);
    }
  }

  lemma LastHasNoSuccessor(ps: seq<Player>, t: int, k: int, a: int)
    requires UniqueIds(ps) && |GuessersFor(ps, t)| > 0 && k == |GuessersFor(ps, t)| - 1
    requires a == SeatOf(ps, GuessersFor(ps, t)[k])
    ensures forall m :: a < m < |ps| ==> !Eligible(ps, t, m)
  {
    var ids := Ids(ps);
    var active := ActiveIds(ps);
    assert a == IndexOf(ids, GuessersFor(ps, t)[k]);
    assert forall m :: a < m < |ids| ==> !Keeps(ids, active, t, m) by {
      assert Distinct(ids);
      EligibleLast(ids, active, t);
    }
    forall m | a < m < |ps| ensures !Eligible(ps, t, m) {
      KeepsIsEligible(ps, t, m);
    }
  }

  lemma NotLastHasSuccessor(ps: seq<Player>, t: int, k: int, a: int) returns (b: int)
    requires UniqueIds(ps) && 0 <= k && k + 1 < |GuessersFor(ps, t)|
    requires a == SeatOf(ps, GuessersFor(ps, t)[k])
    ensures a < b < |ps| && Eligible(ps, t, b)
  {
    EligibleMembers(Ids(ps), ActiveIds(ps), t);
    var ids := Ids(ps);
    var g := GuessersFor(ps, t);
    assert Distinct(ids);
    EligibleNext(ids, ActiveIds(ps), t, k);
    b := IndexOf(ids, g[k + 1]);
    assert g[k + 1] in g;
    assert Keeps(ids, ActiveIds(ps), t, b);
    KeepsIsEligible(ps, t, b);
  }

  /** Continuing a round: the target is unchanged and the next guesser is the
      next eligible seat after the last guesser's seat (or the first eligible
      seat when the last guesser is not in the cycle). */
  lemma ContinueRound(ps: seq<Player>, lastGuesserId: int, lastTargetId: int)
    requires UniqueIds(ps) && |ActiveIds(ps)| >= 2
    requires IndexOf(GuessersFor(ps, lastTargetId), lastGuesserId)
             != |GuessersFor(ps, lastTargetId)| - 1
    ensures var r := CalculateNextTurn(ps, lastGuesserId, lastTargetId, false);
            r.Some? && r.value.nextTargetId == lastTargetId &&
            var j := SeatOf(ps, r.value.nextGuesserId);
            var a := SeatOf(ps, lastGuesserId);
            0 <= j && Eligible(ps, lastTargetId, j) &&
            (a >= 0 && Eligible(ps, lastTargetId, a) ==>
               a < j && forall m :: a < m < j ==> !Eligible(ps, lastTargetId, m)) &&
            (!(a >= 0 && Eligible(ps, lastTargetId, a)) ==>
               forall m :: 0 <= m < j ==> !Eligible(ps, lastTargetId, m))
  {
    var g := GuessersFor(ps, lastTargetId);
    var ids := Ids(ps);
    var k := IndexOf(g, lastGuesserId);
    var r := CalculateNextTurn(ps, lastGuesserId, lastTargetId, false);
    assert r.value.nextGuesserId == g[k + 1];
    assert Distinct(ids);
    InCycleIsEligible(ps, lastTargetId, lastGuesserId);
    assert g[k + 1] in g;
    InCycleIsEligible(ps, lastTargetId, g[k + 1]);
    var j := SeatOf(ps, g[k + 1]);
    if k >= 0 {
      EligibleNext(ids, ActiveIds(ps), lastTargetId, k);
      forall m | SeatOf(ps, lastGuesserId) < m < j ensures !Eligible(ps, lastTargetId, m) {
        KeepsIsEligible(ps, lastTargetId, m);
      }
    } else {
      EligibleFirst(ids, ActiveIds(ps), lastTargetId);
      forall m | 0 <= m < j ensures !Eligible(ps, lastTargetId, m) {
        KeepsIsEligible(ps, lastTargetId, m);
      }
    }
  }

  /** Starting a new round: the new target is the first unfound seat strictly
      after the old target's seat, cyclically (from seat 0 when the old target
      is not seated), reached within `|ps|` steps, passing over a seat whose
      id is the `-1` sentinel; the new guesser is the first unfound seat other
      than the new target. */
  lemma NewRound(ps: seq<Player>, lastGuesserId: int, lastTargetId: int, justFound: bool)
    requires UniqueIds(ps) && |ActiveIds(ps)| >= 2
    requires justFound || IndexOf(GuessersFor(ps, lastTargetId), lastGuesserId)
                          == |GuessersFor(ps, lastTargetId)| - 1
    ensures var r := CalculateNextTurn(ps, lastGuesserId, lastTargetId, justFound);
            r.Some? &&
            var t := SeatOf(ps, r.value.nextTargetId);
            var s := SeatOf(ps, lastTargetId);
            0 <= t && !ps[t].isFound && r.value.nextTargetId != NoTarget &&
            (exists k :: 1 <= k <= |ps| && t == Cyc(|ps|, s, k) &&
               forall k' :: 1 <= k' < k ==>
                 ps[Cyc(|ps|, s, k')].isFound || ps[Cyc(|ps|, s, k')].id == NoTarget)
    ensures var r := CalculateNextTurn(ps, lastGuesserId, lastTargetId, justFound);
            r.Some? &&
            var g := SeatOf(ps, r.value.nextGuesserId);
            0 <= g && Eligible(ps, r.value.nextTargetId, g) &&
            forall m :: 0 <= m < g ==> !Eligible(ps, r.value.nextTargetId, m)
  {
    var active := ActiveIds(ps);
    var ids := Ids(ps);
    var s := SeatOf(ps, lastTargetId);
    ScanPossible(ps, s);
    var seat := ScanNextTarget(ps, active, s, |ps|);
    var t := ps[seat].id;
    var r := CalculateNextTurn(ps, lastGuesserId, lastTargetId, justFound);
    assert r.value.nextTargetId == t;
    SeatOfUnique(ps, seat);
    ActiveIdOfSeat(ps, seat);
    var k :| 1 <= k <= |ps| && seat == Cyc(|ps|, s, k) &&
             forall k' :: 1 <= k' < k ==> !HitAt(ps, active, s, k');
    forall k' | 1 <= k' < k
      ensures ps[Cyc(|ps|, s, k')].isFound || ps[Cyc(|ps|, s, k')].id == NoTarget
    {
      assert !HitAt(ps, active, s, k');
      ActiveIdOfSeat(ps, Cyc(|ps|, s, k'));
    }
    OtherActive(ps, t);
    var f := EligibleIds(ids, active, t);
    assert r.value.nextGuesserId == f[0];
    assert f[0] in f;
    InCycleIsEligible(ps, t, f[0]);
    EligibleFirst(ids, active, t);
    forall m | 0 <= m < SeatOf(ps, f[0]) ensures !Eligible(ps, t, m) {
      KeepsIsEligible(ps, t, m);
    }
  }

  // ---------------------------------------------------------------------
  // The rotation reads only the seating: ids and found flags.

  lemma {:induction false} ScanSameSeating(ps: seq<Player>, qs: seq<Player>, active: seq<int>,
                                           cur: int, fuel: nat)
    requires SameSeating(ps, qs)
    requires |ps| > 0 && -1 <= cur < |ps| && fuel <= |ps|
    requires exists k :: 1 <= k <= fuel && HitAt(ps, active, cur, k)
    ensures exists k :: 1 <= k <= fuel && HitAt(qs, active, cur, k)
    ensures ScanNextTarget(ps, active, cur, fuel) == ScanNextTarget(qs, active, cur, fuel)
    decreases fuel
  {
    HitSameSeating(ps, qs, active, cur, fuel);
    var next := (cur + 1) % |ps|;
    assert Stops(ps, active, next) == Stops(qs, active, next) by {
      assert ps[next].id == qs[next].id;
    }
    if !Stops(ps, active, next) {
      ScanShiftPre(ps, active, cur, next, fuel);
      ScanSameSeating(ps, qs, active, next, fuel - 1);
      assert ScanNextTarget(ps, active, cur, fuel) == ScanNextTarget(ps, active, next, fuel - 1);
      assert ScanNextTarget(qs, active, cur, fuel) == ScanNextTarget(qs, active, next, fuel - 1);
    } else {
      assert ScanNextTarget(ps, active, cur, fuel) == next == ScanNextTarget(qs, active, cur, fuel);
    }
  }

  /** A seat the scan may stop at on one roster it may stop at on any
      roster with the same seating. */
  lemma HitSameSeating(ps: seq<Player>, qs: seq<Player>, active: seq<int>, cur: int, fuel: nat)
    requires SameSeating(ps, qs)
    requires |ps| > 0 && -1 <= cur < |ps| && fuel <= |ps|
    requires exists k :: 1 <= k <= fuel && HitAt(ps, active, cur, k)
    ensures exists k :: 1 <= k <= fuel && HitAt(qs, active, cur, k)
  {
    var k :| 1 <= k <= fuel && HitAt(ps, active, cur, k);
    var c := Cyc(|ps|, cur, k);
    assert ps[c].id == qs[c].id;
    assert HitAt(qs, active, cur, k);
  }

  /** `calculateNextTurn` gives the same answer on two rosters with the same
      seating, whatever their histories, secrets or titles. */
  lemma CalculateNextTurnSameSeating(ps: seq<Player>, qs: seq<Player>, lastGuesserId: int,
                                     lastTargetId: int, justFound: bool)
    requires UniqueIds(ps) && SameSeating(ps, qs)
    ensures UniqueIds(qs)
    ensures CalculateNextTurn(ps, lastGuesserId, lastTargetId, justFound) ==
            CalculateNextTurn(qs, lastGuesserId, lastTargetId, justFound)
  {
    SameSeatingLists(ps, qs);
    assert UniqueIds(qs);
    var active := ActiveIds(ps);
    if |active| > 1 {
      var current := EligibleIds(Ids(ps), active, lastTargetId);
      var lastIdx := IndexOf(current, lastGuesserId);
      if justFound || lastIdx == |current| - 1 {
        NewRoundSameSeating(ps, qs, lastTargetId);
        assert CalculateNextTurn(ps, lastGuesserId, lastTargetId, justFound) ==
               Some(NewRoundTurn(ps, lastTargetId));
        assert CalculateNextTurn(qs, lastGuesserId, lastTargetId, justFound) ==
               Some(NewRoundTurn(qs, lastTargetId));
      }
    }
  }

  lemma NewRoundSameSeating(ps: seq<Player>, qs: seq<Player>, lastTargetId: int)
    requires UniqueIds(ps) && UniqueIds(qs) && SameSeating(ps, qs) && |ActiveIds(ps)| > 1
    ensures |ActiveIds(qs)| > 1
    ensures NewRoundTurn(ps, lastTargetId) == NewRoundTurn(qs, lastTargetId)
  {
    var start := SeatOf(ps, lastTargetId);
    SameSeatingLists(ps, qs);
    assert start == SeatOf(qs, lastTargetId);
    ScanPossible(ps, start);
    ScanSameSeating(ps, qs, ActiveIds(ps), start, |ps|);
    var seat := ScanNextTarget(ps, ActiveIds(ps), start, |ps|);
    assert ps[seat].id == qs[seat].id;
  }
}
