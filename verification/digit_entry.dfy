/** The digit buffers behind the numpad: the secret-entry screen and the
    guessing screen both fill a buffer one digit at a time up to the digit
    count and drop its last digit on backspace. The numpad's OK button is
    disabled until the buffer holds exactly the digit count, so OK always
    hands the complete buffer on; the handlers' own "enter all digits"
    error branch is modelled but no numpad press reaches it. The screens
    differ only after OK: the guessing screen empties its buffer, the
    secret-entry screen keeps it (the game moves on to another screen). */
module DigitEntry {
  import opened Types
  import opened App

  /** The error line under the buffer: empty, or the prompt to enter all
      `digitCount` digits. */
  datatype Notice = Clear | FillAll(digitCount: int)

  datatype Entry = Entry(digits: seq<char>, notice: Notice)

  const Empty: Entry := Entry([], Clear)

  /** Which screen owns the buffer. */
  datatype Screen = SecretEntry | GuessEntry

  /** A numpad press. */
  datatype Key = Digit(d: char) | Back | Ok

  /** The buffer after a press, and the digits handed on by it, if any
      (`onSetupComplete` or `onSubmitGuess`). */
  datatype Step = Step(entry: Entry, sent: Option<seq<char>>)

  /** `handleDigit`: append while the buffer is short, and clear the error;
      a full buffer ignores the press. */
  function PressDigit(e: Entry, digitCount: int, d: char): (r: Entry)
    ensures |e.digits| < digitCount ==> |r.digits| == |e.digits| + 1 && r.notice == Clear
    ensures |e.digits| < digitCount ==> r.digits[..|e.digits|] == e.digits && r.digits[|e.digits|] == d
    ensures |e.digits| >= digitCount ==> r == e
  {
    if |e.digits| < digitCount then Entry(e.digits + [d], Clear) else e
  }

  /** `handleBackspace`: `slice(0, -1)`, which leaves an empty buffer empty,
      and clear the error. */
  function PressBack(e: Entry): (r: Entry)
    ensures |e.digits| > 0 ==> |r.digits| == |e.digits| - 1 && r.digits == e.digits[..|r.digits|]
    ensures |e.digits| == 0 ==> r.digits == []
    ensures r.notice == Clear
  {
    Entry(if |e.digits| == 0 then [] else e.digits[..|e.digits| - 1], Clear)
  }

  /** `confirmNumber` on the secret-entry screen and `handleSubmit` on the
      guessing screen. */
  function PressOk(scr: Screen, e: Entry, digitCount: int): (r: Step)
    ensures r.sent.Some? <==> |e.digits| == digitCount
    ensures r.sent.Some? ==> r.sent.value == e.digits
    ensures r.sent.None? ==> r.entry == e.(notice := FillAll(digitCount))
    ensures r.sent.Some? && scr == GuessEntry ==> r.entry == Empty
    ensures r.sent.Some? && scr == SecretEntry ==> r.entry == e
  {
    if |e.digits| != digitCount then Step(e.(notice := FillAll(digitCount)), None)
    else if scr == GuessEntry then Step(Empty, Some(e.digits))
    else Step(e, Some(e.digits))
  }

  /** The numpad's OK button is enabled (`submitDisabled` is false) only
      when the buffer holds exactly `digitCount` digits. */
  predicate OkEnabled(e: Entry, digitCount: int) {
    |e.digits| == digitCount
  }

  /** A press on the numpad: a digit, backspace, or OK while the button is
      enabled; a press of the disabled OK button does nothing. No press
      raises the error, and only OK hands anything on: the full buffer. */
  function Press(scr: Screen, e: Entry, digitCount: int, k: Key): (r: Step)
    ensures k.Ok? && !OkEnabled(e, digitCount) ==> r == Step(e, None)
    ensures r.sent.Some? ==> k.Ok? && |e.digits| == digitCount && r.sent.value == e.digits
    ensures e.notice == Clear ==> r.entry.notice == Clear
  {
    match k
    case Digit(d) => Step(PressDigit(e, digitCount, d), None)
    case Back => Step(PressBack(e), None)
    case Ok => if OkEnabled(e, digitCount) then PressOk(scr, e, digitCount) else Step(e, None)
  }

  /** A sequence of presses: the final buffer and everything handed on, in
      order. */
  datatype Session = Session(entry: Entry, sent: seq<seq<char>>)

  function Run(scr: Screen, e: Entry, digitCount: int, keys: seq<Key>): Session
    decreases |keys|
  {
    if |keys| == 0 then Session(e, [])
    else
      var st := Press(scr, e, digitCount, keys[0]);
      var rest := Run(scr, st.entry, digitCount, keys[1..]);
      var now := if st.sent.Some? then [st.sent.value] else [];
      Session(rest.entry, now + rest.sent)
  }

  /** Through the numpad the "enter all digits" error never appears: a
      session that starts without it ends without it, whatever is pressed. */
  lemma {:induction false} RunNeverWarns(scr: Screen, e: Entry, digitCount: int, keys: seq<Key>)
    requires e.notice == Clear
    ensures Run(scr, e, digitCount, keys).entry.notice == Clear
    decreases |keys|
  {
    if |keys| > 0 {
      var st := Press(scr, e, digitCount, keys[0]);
      RunNeverWarns(scr, st.entry, digitCount, keys[1..]);
    }
  }

  /** The numpad only offers the keys 0-9. */
  predicate NumpadKeys(keys: seq<Key>) {
    forall i :: 0 <= i < |keys| ==> keys[i].Digit? ==> IsDigit(keys[i].d)
  }

  /** What a buffer of the right size looks like. */
  predicate Fits(e: Entry, digitCount: int) {
    |e.digits| <= digitCount && IsDigits(e.digits)
  }

  lemma PressFits(scr: Screen, e: Entry, digitCount: int, k: Key)
    requires Fits(e, digitCount) && (k.Digit? ==> IsDigit(k.d))
    ensures Fits(Press(scr, e, digitCount, k).entry, digitCount)
  {
  }

  /** Whatever keys are pressed, the buffer never holds more than
      `digitCount` digits, and every value handed on has exactly
      `digitCount` digits. */
  lemma {:induction false} RunSendsFullBuffers(scr: Screen, e: Entry, digitCount: int, keys: seq<Key>)
    requires Fits(e, digitCount) && NumpadKeys(keys)
    ensures var s := Run(scr, e, digitCount, keys);
            Fits(s.entry, digitCount) &&
            forall i :: 0 <= i < |s.sent| ==> |s.sent[i]| == digitCount && IsDigits(s.sent[i])
    decreases |keys|
  {
    if |keys| > 0 {
      PressFits(scr, e, digitCount, keys[0]);
      var st := Press(scr, e, digitCount, keys[0]);
      assert NumpadKeys(keys[1..]) by {
        forall i | 0 <= i < |keys[1..]|
          ensures keys[1..][i].Digit? ==> IsDigit(keys[1..][i].d)
        {
          assert keys[1..][i] == keys[i + 1];
        }
      }
      RunSendsFullBuffers(scr, st.entry, digitCount, keys[1..]);
    }
  }

  /** Backspace undoes a digit that was taken. */
  lemma BackUndoesDigit(e: Entry, digitCount: int, d: char)
    requires |e.digits| < digitCount
    ensures PressBack(PressDigit(e, digitCount, d)).digits == e.digits
  {
    assert (e.digits + [d])[..|e.digits|] == e.digits;
  }

  /** The keys that type the digits of `s`. */
  function Typing(s: seq<char>): (r: seq<Key>)
    ensures |r| == |s| && forall i :: 0 <= i < |s| ==> r[i] == Digit(s[i])
  {
    seq(|s|, i requires 0 <= i < |s| => Digit(s[i]))
  }

  /** Typing digits into a buffer with room for them appends them all and
      hands nothing on. */
  lemma {:induction false} TypingAppends(scr: Screen, e: Entry, digitCount: int, s: seq<char>)
    requires |e.digits| + |s| <= digitCount && |s| > 0
    ensures Run(scr, e, digitCount, Typing(s)) == Session(Entry(e.digits + s, Clear), [])
    decreases |s|
  {
    var keys := Typing(s);
    var e' := Entry(e.digits + [s[0]], Clear);
    assert Press(scr, e, digitCount, keys[0]) == Step(e', None);
    QuietStep(scr, e, digitCount, keys);
    assert keys[1..] == Typing(s[1..]);
    if |s| > 1 {
      TypingAppends(scr, e', digitCount, s[1..]);
      assert e'.digits + s[1..] == e.digits + s;
    } else {
      assert keys[1..] == [];
      assert e'.digits == e.digits + s;
    }
  }

  /** A first press that hands nothing on only changes the buffer the rest
      of the keys start from. */
  lemma QuietStep(scr: Screen, e: Entry, digitCount: int, keys: seq<Key>)
    requires |keys| > 0 && Press(scr, e, digitCount, keys[0]).sent.None?
    ensures Run(scr, e, digitCount, keys) ==
            Run(scr, Press(scr, e, digitCount, keys[0]).entry, digitCount, keys[1..])
  {
    var rest := Run(scr, Press(scr, e, digitCount, keys[0]).entry, digitCount, keys[1..]);
    assert [] + rest.sent == rest.sent;
  }

  /** Running two batches of keys one after the other. */
  lemma {:induction false} RunSplits(scr: Screen, e: Entry, digitCount: int, a: seq<Key>, b: seq<Key>)
    ensures var first := Run(scr, e, digitCount, a);
            var second := Run(scr, first.entry, digitCount, b);
            Run(scr, e, digitCount, a + b) == Session(second.entry, first.sent + second.sent)
    decreases |a|
  {
    if |a| > 0 {
      var st := Press(scr, e, digitCount, a[0]);
      assert (a + b)[0] == a[0] && (a + b)[1..] == a[1..] + b;
      RunSplits(scr, st.entry, digitCount, a[1..], b);
      var now := if st.sent.Some? then [st.sent.value] else [];
      var rest := Run(scr, st.entry, digitCount, a[1..]);
      var second := Run(scr, rest.entry, digitCount, b);
      assert now + (rest.sent + second.sent) == (now + rest.sent) + second.sent;
    } else {
      assert a + b == b;
    }
  }

  /** From an empty buffer, typing `digitCount` digits and pressing OK hands
      on exactly those digits, once. */
  lemma TypeThenOk(scr: Screen, digitCount: int, s: seq<char>)
    requires |s| == digitCount > 0
    ensures Run(scr, Empty, digitCount, Typing(s) + [Ok]).sent == [s]
  {
    TypingAppends(scr, Empty, digitCount, s);
    RunSplits(scr, Empty, digitCount, Typing(s), [Ok]);
    assert [] + s == s;
  }

  // ---------------------------------------------------------------------
  // The guessing screen

  /** `isMyTurn`. */
  predicate IsMyTurn(currentPlayerId: int, localPlayerId: int) {
    currentPlayerId == localPlayerId
  }

  /** The effect that runs when the current player changes: the buffer and
      the error are reset when the turn becomes the local player's. */
  function TurnChanged(e: Entry, currentPlayerId: int, localPlayerId: int): (r: Entry)
    ensures IsMyTurn(currentPlayerId, localPlayerId) ==> r == Empty
    ensures !IsMyTurn(currentPlayerId, localPlayerId) ==> r == e
  {
    if currentPlayerId == localPlayerId then Empty else e
  }

  /** Every guess the guessing screen hands on during the local player's
      turn, which began with the reset, meets what `handleSubmitGuess`
      relies on, and the local player is a seated guesser that the guard
      accepts whenever the game is in progress. */
  lemma ScreenGuessAccepted(st: GameState, e: Entry, keys: seq<Key>, i: int)
    requires PlayingInvariant(st) && st.phase == Playing && IsMyTurn(st.currentPlayerId, LocalPlayerId)
    requires NumpadKeys(keys)
    requires var s := Run(GuessEntry, TurnChanged(e, st.currentPlayerId, LocalPlayerId),
                          st.settings.value.digitCount, keys);
             0 <= i < |s.sent|
    ensures var s := Run(GuessEntry, TurnChanged(e, st.currentPlayerId, LocalPlayerId),
                         st.settings.value.digitCount, keys);
            SubmitReady(st, s.sent[i]) && IsDigits(s.sent[i]) &&
            Accepts(st, LocalPlayerId, st.targetPlayerId)
  {
    var n := st.settings.value.digitCount;
    RunSendsFullBuffers(GuessEntry, Empty, n, keys);
    PlayingAccepts(st);
  }
}
