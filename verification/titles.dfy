/** End-of-game titles: the winner gets an entry of the winning-title list
    chosen by an injected index; every other player, in seating order, takes
    the entry popped from the end of an (injected) shuffled copy of the
    losing-title list, and the fixed fallback once that pool is empty. */
module Titles {
  import opened Types

  const FallbackTitle: string := "ผู้ร่วมชะตากรรม"

  /** `WINNING_TITLES[Math.floor(Math.random() * WINNING_TITLES.length)]`
      with the random index injected as `pick`; out of range is `undefined`. */
  function WinningTitle(winning: seq<string>, pick: nat): (r: Option<string>)
    ensures r.Some? <==> pick < |winning|
    ensures r.Some? ==> r.value in winning
  {
    if pick < |winning| then Some(winning[pick]) else None
  }

  /** Title the `k`-th loser (0-based, seating order) receives from `pool`:
      the `k`-th entry from the end, or the fallback when the pool has run
      out or the entry is the (falsy) empty string. */
  function LosingTitle(pool: seq<string>, k: nat): string
  {
    if k < |pool| && pool[|pool| - 1 - k] != "" then pool[|pool| - 1 - k] else FallbackTitle
  }

  /** Number of seats before `i` (by identifier list) not held by the winner. */
  function LosersBefore(ids: seq<int>, winnerId: int, i: nat): nat
    requires i <= |ids|
  {
    if i == 0 then 0
    else LosersBefore(ids, winnerId, i - 1) + (if ids[i - 1] != winnerId then 1 else 0)
  }

  /** Only the `title` field differs between the two rosters. */
  predicate RetitledOnly(ps: seq<Player>, qs: seq<Player>) {
    |ps| == |qs| && forall i :: 0 <= i < |ps| ==> qs[i] == ps[i].(title := qs[i].title)
  }

  /** `updatedPlayers.map(p => p.id === winner.id ? {...p, title: win}
      : {...p, title: pool.pop() || fallback})`; what each seat receives is
      stated by `AssignTitlesRetitles` and `AssignTitlesAt`. */
  function AssignTitles(ps: seq<Player>, winnerId: int, winTitle: Option<string>,
                        pool: seq<string>): (r: seq<Player>)
    ensures |r| == |ps|
    decreases |ps|
  {
    if |ps| == 0 then []
    else
      var loser := ps[0].id != winnerId;
      var title := if !loser then winTitle
                   else if |pool| > 0 && pool[|pool| - 1] != "" then Some(pool[|pool| - 1])
                   else Some(FallbackTitle);
      var pool' := if !loser || |pool| == 0 then pool else pool[..|pool| - 1];
      [ps[0].(title := title)] + AssignTitles(ps[1..], winnerId, winTitle, pool')
  }

  /** The pool left for the seats after the first one. */
  function PoolAfterFirst(ps: seq<Player>, winnerId: int, pool: seq<string>): seq<string>
    requires |ps| > 0
  {
    if ps[0].id == winnerId || |pool| == 0 then pool else pool[..|pool| - 1]
  }

  lemma AssignTitlesTail(ps: seq<Player>, winnerId: int, winTitle: Option<string>,
                         pool: seq<string>, i: int)
    requires 1 <= i < |ps|
    ensures AssignTitles(ps, winnerId, winTitle, pool)[i] ==
            AssignTitles(ps[1..], winnerId, winTitle, PoolAfterFirst(ps, winnerId, pool))[i - 1]
  {
  }

  /** Handing out titles changes nothing but titles. */
  lemma {:induction false} AssignTitlesRetitles(ps: seq<Player>, winnerId: int, winTitle: Option<string>,
                                                pool: seq<string>)
    ensures RetitledOnly(ps, AssignTitles(ps, winnerId, winTitle, pool))
    decreases |ps|
  {
    if |ps| > 0 {
      var pool' := PoolAfterFirst(ps, winnerId, pool);
      AssignTitlesRetitles(ps[1..], winnerId, winTitle, pool');
      var r := AssignTitles(ps, winnerId, winTitle, pool);
      forall i | 1 <= i < |ps|
        ensures r[i] == ps[i].(title := r[i].title)
      {
        AssignTitlesTail(ps, winnerId, winTitle, pool, i);
        assert ps[1..][i - 1] == ps[i];
      }
    }
  }

  /** The winner's seat receives the winning title; the seat of the `k`-th
      loser in seating order receives the `k`-th title from the end of the
      pool, or the fallback. */
  lemma {:induction false} AssignTitlesAt(ps: seq<Player>, winnerId: int, winTitle: Option<string>,
                                          pool: seq<string>, i: int)
    requires 0 <= i < |ps|
    ensures AssignTitles(ps, winnerId, winTitle, pool)[i].title ==
            if ps[i].id == winnerId then winTitle
            else Some(LosingTitle(pool, LosersBefore(Ids(ps), winnerId, i)))
    decreases |ps|
  {
    if i == 0 {
      AssignTitlesHead(ps, winnerId, winTitle, pool);
    } else {
      var pool' := PoolAfterFirst(ps, winnerId, pool);
      var rest := AssignTitles(ps[1..], winnerId, winTitle, pool');
      AssignTitlesTail(ps, winnerId, winTitle, pool, i);
      assert rest[i - 1].title ==
             if ps[i].id == winnerId then winTitle
             else Some(LosingTitle(pool', LosersBefore(Ids(ps[1..]), winnerId, i - 1))) by {
        AssignTitlesAt(ps[1..], winnerId, winTitle, pool', i - 1);
        assert ps[1..][i - 1] == ps[i];
      }
      LoserShift(ps, winnerId, pool, i);
    }
  }

  lemma AssignTitlesHead(ps: seq<Player>, winnerId: int, winTitle: Option<string>, pool: seq<string>)
    requires |ps| > 0
    ensures AssignTitles(ps, winnerId, winTitle, pool)[0].title ==
            if ps[0].id == winnerId then winTitle else Some(LosingTitle(pool, 0))
  {
  }

  /** The rank of the loser at seat `i` among the later seats, looked up in
      the pool left after the first seat, gives the same title as its rank
      among all seats looked up in the whole pool. */
  lemma LoserShift(ps: seq<Player>, winnerId: int, pool: seq<string>, i: int)
    requires 1 <= i < |ps|
    ensures LosingTitle(PoolAfterFirst(ps, winnerId, pool), LosersBefore(Ids(ps[1..]), winnerId, i - 1)) ==
            LosingTitle(pool, LosersBefore(Ids(ps), winnerId, i))
  {
    assert Ids(ps)[1..] == Ids(ps[1..]);
    ShiftLosersAt(Ids(ps), winnerId, i);
    ShiftPool(pool, PoolAfterFirst(ps, winnerId, pool), ps[0].id != winnerId,
              LosersBefore(Ids(ps[1..]), winnerId, i - 1));
  }

  /** Every seat at once. */
  lemma AssignTitlesAll(ps: seq<Player>, winnerId: int, winTitle: Option<string>, pool: seq<string>)
    ensures var r := AssignTitles(ps, winnerId, winTitle, pool);
            RetitledOnly(ps, r) &&
            (forall i :: 0 <= i < |ps| && ps[i].id == winnerId ==> r[i].title == winTitle) &&
            forall i :: 0 <= i < |ps| && ps[i].id != winnerId ==>
              r[i].title == Some(LosingTitle(pool, LosersBefore(Ids(ps), winnerId, i)))
  {
    AssignTitlesRetitles(ps, winnerId, winTitle, pool);
    forall i | 0 <= i < |ps|
      ensures AssignTitles(ps, winnerId, winTitle, pool)[i].title ==
              if ps[i].id == winnerId then winTitle
              else Some(LosingTitle(pool, LosersBefore(Ids(ps), winnerId, i)))
    {
      AssignTitlesAt(ps, winnerId, winTitle, pool, i);
    }
  }

  lemma {:induction false} ShiftLosersAt(ids: seq<int>, winnerId: int, i: nat)
    requires 1 <= i <= |ids|
    ensures LosersBefore(ids, winnerId, i) ==
            LosersBefore(ids[1..], winnerId, i - 1) + (if ids[0] != winnerId then 1 else 0)
  {
    if i > 1 {
      ShiftLosersAt(ids, winnerId, i - 1);
      assert ids[1..][i - 2] == ids[i - 1];
    }
  }

  /** Popping one title for a loser shifts every later loser's rank by one. */
  lemma ShiftPool(pool: seq<string>, pool': seq<string>, loser: bool, k: nat)
    requires pool' == if !loser || |pool| == 0 then pool else pool[..|pool| - 1]
    ensures LosingTitle(pool', k) == LosingTitle(pool, k + (if loser then 1 else 0))
  {
  }

  lemma {:induction false} LosersBeforeGrows(ids: seq<int>, winnerId: int, i: nat, j: nat)
    requires i < j <= |ids| && ids[i] != winnerId
    ensures LosersBefore(ids, winnerId, i) < LosersBefore(ids, winnerId, j)
    decreases j
  {
    if j > i + 1 {
      LosersBeforeGrows(ids, winnerId, i, j - 1);
    }
  }

  /** No losing title is handed out twice: with a pool of distinct entries,
      two different losers never share a title other than the fallback. */
  lemma TitlesNotReused(ps: seq<Player>, winnerId: int, winTitle: Option<string>,
                        pool: seq<string>, i: int, j: int)
    requires forall a, b :: 0 <= a < b < |pool| ==> pool[a] != pool[b]
    requires 0 <= i < j < |ps| && ps[i].id != winnerId && ps[j].id != winnerId
    ensures var r := AssignTitles(ps, winnerId, winTitle, pool);
            r[i].title == r[j].title ==> r[i].title == Some(FallbackTitle)
  {
    AssignTitlesAt(ps, winnerId, winTitle, pool, i);
    AssignTitlesAt(ps, winnerId, winTitle, pool, j);
    LosersBeforeGrows(Ids(ps), winnerId, i, j);
  }
}
