/** Feedback for one guess against one secret: the two-pass count of digits in
    the right place (`correct`) and digits present elsewhere (`misplaced`).
    Consumed positions are overwritten with the sentinels 'C' (exact match,
    both arrays) and 'M' (secret digit used up by a misplaced guess digit), so
    a repeated digit is never counted twice. */
module Scoring {
  import opened Types

  const ExactMark: char := 'C'
  const MisplacedMark: char := 'M'

  datatype Feedback = Feedback(correct: nat, misplaced: nat)

  /** Pass 1 counter: positions where the two arrays agree. */
  function ExactCount(s: seq<char>, g: seq<char>): (r: nat)
    requires |s| == |g|
    ensures r <= |s|
    ensures r == |s| <==> s == g
  {
    if |s| == 0 then 0
    else
      var rest := ExactCount(s[1..], g[1..]);
      if s[0] == g[0] then
        assert s == g <==> s[1..] == g[1..] by {
          if s[1..] == g[1..] { assert s == [s[0]] + s[1..] && g == [g[0]] + g[1..]; }
        }
        rest + 1
      else
        assert s != g by { assert s[0] != g[0]; }
        rest
  }

  /** Pass 1 rewrite of one array: every position where `a` agrees with `b`
      becomes 'C' (`secret[i] = 'C'` / `guessAttempt[i] = 'C'`). */
  function MarkExact(a: seq<char>, b: seq<char>): (r: seq<char>)
    requires |a| == |b|
    ensures |r| == |a|
    ensures forall i :: 0 <= i < |a| && a[i] != b[i] ==> r[i] == a[i]
    ensures forall i :: 0 <= i < |a| && a[i] == b[i] ==> r[i] == ExactMark
  {
    if |a| == 0 then []
    else [if a[0] == b[0] then ExactMark else a[0]] + MarkExact(a[1..], b[1..])
  }

  /** The guess entries pass 2 looks at: everything not consumed in pass 1. */
  function Unconsumed(gs: seq<char>): (r: seq<char>)
    ensures |r| <= |gs|
    ensures ExactMark !in r
    ensures forall c :: c in r ==> c in gs
  {
    if |gs| == 0 then []
    else if gs[0] == ExactMark then Unconsumed(gs[1..])
    else [gs[0]] + Unconsumed(gs[1..])
  }

  datatype Pass2Result = Pass2Result(misplaced: nat, secret: seq<char>)

  /** Pass 2 over the remaining guess entries `gs`: a 'C' entry is skipped;
      any other entry consumes the first equal entry of the working secret
      (`secret.findIndex(digit => digit === guessAttempt[i])`), overwriting it
      with 'M'. */
  function Pass2(sec: seq<char>, gs: seq<char>): (r: Pass2Result)
    ensures |r.secret| == |sec|
    ensures r.misplaced <= |Unconsumed(gs)|
    ensures forall j :: 0 <= j < |sec| && r.secret[j] != sec[j] ==>
              r.secret[j] == MisplacedMark && sec[j] in Unconsumed(gs)
    ensures MisplacedMark !in gs ==>
              multiset(r.secret)[MisplacedMark] == multiset(sec)[MisplacedMark] + r.misplaced
    decreases |gs|
  {
    if |gs| == 0 then Pass2Result(0, sec)
    else if gs[0] == ExactMark then Pass2(sec, gs[1..])
    else
      var k := IndexOf(sec, gs[0]);
      if k == -1 then Pass2(sec, gs[1..])
      else
        var sec' := sec[k := MisplacedMark];
        var r := Pass2(sec', gs[1..]);
        UpdateMultiset(sec, k, MisplacedMark);
        assert gs[0] in Unconsumed(gs);
        assert Unconsumed(gs) == [gs[0]] + Unconsumed(gs[1..]);
        Pass2Result(r.misplaced + 1, r.secret)
  }

  lemma UpdateMultiset(s: seq<char>, k: nat, x: char)
    requires k < |s|
    ensures multiset(s[k := x]) == multiset(s) - multiset{s[k]} + multiset{x}
  {
    assert s == s[..k] + [s[k]] + s[k + 1..];
    assert s[k := x] == s[..k] + [x] + s[k + 1..];
  }

  /** The scoring body of `handleSubmitGuess`. */
  function Score(secret: seq<char>, guess: seq<char>): (r: Feedback)
    requires |secret| == |guess|
    ensures r.correct + r.misplaced <= |guess|
    ensures r.correct == |guess| <==> secret == guess
  {
    var correct := ExactCount(secret, guess);
    var p := Pass2(MarkExact(secret, guess), MarkExact(guess, secret));
    UnconsumedBound(guess, secret);
    Feedback(correct, p.misplaced)
  }

  // ---------------------------------------------------------------------
  // Reference definition: exact positions, and the multiset overlap of the
  // digits left over at the other positions.

  /** Entries of `a` at positions where `a` and `b` disagree. */
  function Unmatched(a: seq<char>, b: seq<char>): (r: seq<char>)
    requires |a| == |b|
    ensures |r| == |a| - ExactCount(a, b)
  {
    if |a| == 0 then []
    else if a[0] == b[0] then Unmatched(a[1..], b[1..])
    else [a[0]] + Unmatched(a[1..], b[1..])
  }

  function ExactPositions(s: seq<char>, g: seq<char>): set<int>
    requires |s| == |g|
  {
    set i | 0 <= i < |s| && s[i] == g[i]
  }

  /** Misplaced count of standard Mastermind: how many of the guess's leftover
      digits can be paired with distinct leftover secret digits. */
  function OverlapCount(s: seq<char>, g: seq<char>): nat
    requires |s| == |g|
  {
    |multiset(Unmatched(s, g)) * multiset(Unmatched(g, s))|
  }

  /** After pass 1 at most the disagreeing positions remain for pass 2. */
  lemma {:induction false} UnconsumedBound(a: seq<char>, b: seq<char>)
    requires |a| == |b|
    ensures |Unconsumed(MarkExact(a, b))| <= |a| - ExactCount(b, a)
    decreases |a|
  {
    if |a| > 0 {
      UnconsumedBound(a[1..], b[1..]);
      assert MarkExact(a, b)[1..] == MarkExact(a[1..], b[1..]);
    }
  }

  lemma {:induction false} UnconsumedCount(a: seq<char>, b: seq<char>)
    requires |a| == |b| && IsDigits(a)
    ensures Unconsumed(MarkExact(a, b)) == Unmatched(a, b)
    decreases |a|
  {
    if |a| > 0 {
      UnconsumedCount(a[1..], b[1..]);
      assert MarkExact(a, b)[1..] == MarkExact(a[1..], b[1..]);
    }
  }

  lemma {:induction false} ExactCountIsPositions(s: seq<char>, g: seq<char>)
    requires |s| == |g|
    ensures ExactCount(s, g) == |ExactPositions(s, g)|
  {
    ExactCountFrom(s, g, 0);
    assert s[0..] == s && g[0..] == g;
    assert ExactPositions(s, g) == PositionsFrom(s, g, 0);
  }

  function PositionsFrom(s: seq<char>, g: seq<char>, k: nat): set<int>
    requires |s| == |g|
  {
    set i | k <= i < |s| && s[i] == g[i]
  }

  lemma {:induction false} ExactCountFrom(s: seq<char>, g: seq<char>, k: nat)
    requires |s| == |g| && k <= |s|
    ensures ExactCount(s[k..], g[k..]) == |PositionsFrom(s, g, k)|
    decreases |s| - k
  {
    if k < |s| {
      ExactCountFrom(s, g, k + 1);
      assert s[k..][1..] == s[k + 1..] && g[k..][1..] == g[k + 1..];
      if s[k] == g[k] {
        assert PositionsFrom(s, g, k) == {k} + PositionsFrom(s, g, k + 1);
      } else {
        assert PositionsFrom(s, g, k) == PositionsFrom(s, g, k + 1);
      }
    } else {
      assert PositionsFrom(s, g, k) == {};
    }
  }

  // Multiset facts used by the pass 2 proof.

  lemma OverlapTake(A: multiset<char>, B: multiset<char>, x: char)
    requires x in A && x in B
    ensures |A * B| == 1 + |(A - multiset{x}) * (B - multiset{x})|
  {
    assert A * B == (A - multiset{x}) * (B - multiset{x}) + multiset{x};
  }

  lemma OverlapSkip(A: multiset<char>, B: multiset<char>, x: char)
    requires x !in A
    ensures |A * (B + multiset{x})| == |A * B|
  {
    assert A * (B + multiset{x}) == A * B;
  }

  lemma OverlapIgnores(A: multiset<char>, A': multiset<char>, B: multiset<char>)
    requires forall y :: y in B ==> A[y] == A'[y]
    ensures |A * B| == |A' * B|
  {
    assert A * B == A' * B;
  }

  /** Pass 2 counts exactly the multiset overlap of the working secret with
      the unconsumed guess digits. */
  lemma {:induction false} Pass2IsOverlap(sec: seq<char>, gs: seq<char>)
    requires forall j :: 0 <= j < |gs| ==> gs[j] == ExactMark || IsDigit(gs[j])
    ensures Pass2(sec, gs).misplaced == |multiset(sec) * multiset(Unconsumed(gs))|
    decreases |gs|, 1
  {
    if |gs| > 0 {
      var tail := gs[1..];
      assert forall j :: 0 <= j < |tail| ==> tail[j] == gs[j + 1];
      var rest := multiset(Unconsumed(tail));
      if gs[0] == ExactMark {
        Pass2IsOverlap(sec, tail);
      } else {
        var d := gs[0];
        assert Unconsumed(gs) == [d] + Unconsumed(tail);
        assert multiset(Unconsumed(gs)) == rest + multiset{d};
        var k := IndexOf(sec, d);
        if k == -1 {
          Pass2IsOverlap(sec, tail);
          OverlapSkip(multiset(sec), rest, d);
        } else {
          Pass2Step(sec, tail, d, k);
        }
      }
    }
  }

  lemma {:induction false} Pass2Step(sec: seq<char>, tail: seq<char>, d: char, k: nat)
    requires forall j :: 0 <= j < |tail| ==> tail[j] == ExactMark || IsDigit(tail[j])
    requires IsDigit(d) && k < |sec| && sec[k] == d
    ensures 1 + Pass2(sec[k := MisplacedMark], tail).misplaced
            == |multiset(sec) * (multiset(Unconsumed(tail)) + multiset{d})|
    decreases |tail| + 1, 0
  {
    var sec' := sec[k := MisplacedMark];
    var rest := multiset(Unconsumed(tail));
    Pass2IsOverlap(sec', tail);
    UpdateMultiset(sec, k, MisplacedMark);
    var A := multiset(sec) - multiset{d};
    forall y | y in rest ensures multiset(sec')[y] == A[y] {
      assert y in Unconsumed(tail);
      assert y in tail;
      assert y != MisplacedMark;
    }
    OverlapIgnores(multiset(sec'), A, rest);
    OverlapTake(multiset(sec), rest + multiset{d}, d);
    assert rest + multiset{d} - multiset{d} == rest;
  }

  lemma MarkExactMultiset(a: seq<char>, b: seq<char>, y: char)
    requires |a| == |b| && y != ExactMark
    ensures multiset(MarkExact(a, b))[y] == multiset(Unmatched(a, b))[y]
    decreases |a|
  {
    if |a| > 0 {
      MarkExactMultiset(a[1..], b[1..], y);
      assert MarkExact(a, b) == [MarkExact(a, b)[0]] + MarkExact(a[1..], b[1..]);
    }
  }

  /** The two passes compute the reference feedback: `correct` is the number
      of agreeing positions and `misplaced` the multiset overlap of the
      remaining digits, whatever digits repeat. */
  lemma ScoreIsReference(secret: seq<char>, guess: seq<char>)
    requires |secret| == |guess| && IsDigits(secret) && IsDigits(guess)
    ensures Score(secret, guess).correct == |ExactPositions(secret, guess)|
    ensures Score(secret, guess).misplaced == OverlapCount(secret, guess)
  {
    ExactCountIsPositions(secret, guess);
    var ms := MarkExact(secret, guess);
    var mg := MarkExact(guess, secret);
    UnconsumedCount(guess, secret);
    assert forall j :: 0 <= j < |mg| ==> mg[j] == ExactMark || IsDigit(mg[j]);
    Pass2IsOverlap(ms, mg);
    var B := multiset(Unmatched(guess, secret));
    forall y | y in B ensures multiset(ms)[y] == multiset(Unmatched(secret, guess))[y] {
      assert y in Unmatched(guess, secret);
      assert y in Unconsumed(mg);
      MarkExactMultiset(secret, guess, y);
    }
    OverlapIgnores(multiset(ms), multiset(Unmatched(secret, guess)), B);
  }
}
