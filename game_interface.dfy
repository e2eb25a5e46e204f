/** The rules the game screen adds around the reducer: the elapsed-time
    display, the 10 ms clock tick, the two-minute timeout and the way back
    to the menu. Each effect is modelled by the action it dispatches. */
module GameInterface {
  import opened Optional
  import opened Text
  import opened GameTypes
  import opened GameContext

  // ---------------------------------------------------------------- formatTime

  /** JavaScript's integer quotient truncated toward zero, for a positive divisor. */
  function TruncDiv(a: int, b: int): int
    requires b > 0
  {
    if a >= 0 then a / b else -((-a) / b)
  }

  /** JavaScript's `a % b` for a positive `b`: what is left after the
      truncated quotient, so it takes the sign of `a`. */
  function JsRem(a: int, b: int): (r: int)
    requires b > 0
    ensures a == TruncDiv(a, b) * b + r
    ensures -b < r < b
    ensures a >= 0 ==> r >= 0
    ensures a <= 0 ==> r <= 0
  {
    if a >= 0 then a % b
    else
      var q := (-a) / b;
      assert -a == q * b + (-a) % b;
      assert (-q) * b == -(q * b);
      -((-a) % b)
  }

  /** `mins:ss.cc` for an elapsed time in milliseconds: whole minutes, then
      seconds and hundredths, each padded to two digits. `Math.floor` on a
      positive divisor is Dafny's `/`; the two `%` are JavaScript's. */
  function FormatTime(milliseconds: int): string {
    var totalSeconds := milliseconds / 1000;
    var ms := JsRem(milliseconds, 1000) / 10;
    var mins := totalSeconds / 60;
    var secs := JsRem(totalSeconds, 60);
    IntToString(mins) + ":" + PadStart2(IntToString(secs)) + "." + PadStart2(IntToString(ms))
  }

  /** Reads a `m:ss.cc` display back as milliseconds: digits, a colon, two
      digits, a dot and two digits; anything else is `None`. */
  function ParseClock(s: string): Option<int> {
    var parts := Split(s, ':');
    if |parts| != 2 then None else ParseFields(parts[0], Split(parts[1], '.'))
  }

  function ParseFields(mins: string, right: seq<string>): Option<int> {
    if |right| != 2 then None
    else if !(|mins| >= 1 && AllDigits(mins)
              && |right[0]| == 2 && AllDigits(right[0])
              && |right[1]| == 2 && AllDigits(right[1])) then None
    else Some(ClockMillis(ParseNat(mins), ParseNat(right[0]), ParseNat(right[1])))
  }

  /** The milliseconds a display of minutes, seconds and hundredths stands for. */
  function ClockMillis(mins: int, secs: int, hundredths: int): int {
    mins * 60000 + secs * 1000 + hundredths * 10
  }

  /** A two-digit field: `padStart(2, '0')` on a number below 100. */
  lemma PaddedField(n: nat)
    requires n < 100
    ensures |PadStart2(NatToString(n))| == 2 && AllDigits(PadStart2(NatToString(n)))
    ensures ParseNat(PadStart2(NatToString(n))) == n
  {
    var d := NatToString(n);
    ParseNatToString(n);
    if n < 10 {
      var p := PadStart2(d);
      assert p == ['0'] + d;
      assert p[..1] == "0";
      assert ParseNat(p[..1]) == 0;
    }
  }

  lemma JoinTwo(a: string, b: string, sep: char)
    requires sep !in a && sep !in b
    ensures Split(a + [sep] + b, sep) == [a, b]
  {
    var parts := [a, b];
    assert parts[1..] == [b];
    assert Join(parts, sep) == a + [sep] + b;
    SplitJoin(parts, sep);
  }

  /** On a non-negative time every operand is non-negative, so both
      remainders are Dafny's. */
  lemma FormatTimeNonNegative(milliseconds: nat)
    ensures FormatTime(milliseconds)
         == NatToString(milliseconds / 1000 / 60) + ":"
          + PadStart2(NatToString(milliseconds / 1000 % 60)) + "."
          + PadStart2(NatToString(milliseconds % 1000 / 10))
  {
    assert JsRem(milliseconds, 1000) == milliseconds % 1000;
    assert JsRem(milliseconds / 1000, 60) == milliseconds / 1000 % 60;
  }

  lemma ParseFieldsDigits(a: string, b: string, c: string)
    requires |a| >= 1 && AllDigits(a) && |b| == 2 && AllDigits(b) && |c| == 2 && AllDigits(c)
    ensures ParseFields(a, [b, c]) == Some(ClockMillis(ParseNat(a), ParseNat(b), ParseNat(c)))
  {
  }

  lemma ParseClockSplits(a: string, right: string, b: string, c: string)
    requires Split(a + [':'] + right, ':') == [a, right]
    requires Split(right, '.') == [b, c]
    ensures ParseClock(a + [':'] + right) == ParseFields(a, [b, c])
  {
  }

  /** Digits, a colon, two digits, a dot and two digits parse field by field. */
  lemma ParseClockParts(a: string, b: string, c: string)
    requires |a| >= 1 && AllDigits(a) && |b| == 2 && AllDigits(b) && |c| == 2 && AllDigits(c)
    ensures ParseClock(a + [':'] + (b + ['.'] + c))
         == Some(ClockMillis(ParseNat(a), ParseNat(b), ParseNat(c)))
  {
    var right := b + ['.'] + c;
    assert ':' !in right by {
      assert forall i :: 0 <= i < |right| ==> right[i] == '.' || IsDigit(right[i]);
    }
    JoinTwo(a, right, ':');
    JoinTwo(b, c, '.');
    ParseClockSplits(a, right, b, c);
    ParseFieldsDigits(a, b, c);
  }

  lemma ClockText(a: string, b: string, c: string)
    ensures a + ":" + b + "." + c == a + [':'] + (b + ['.'] + c)
  {
  }

  /** A display built from minutes, seconds and hundredths parses back to
      their millisecond value. */
  lemma ParseClockFields(mins: nat, secs: nat, hundredths: nat)
    requires secs < 100 && hundredths < 100
    ensures ParseClock(NatToString(mins) + ":" + PadStart2(NatToString(secs)) + "."
                       + PadStart2(NatToString(hundredths)))
         == Some(ClockMillis(mins, secs, hundredths))
  {
    var a, b, c := NatToString(mins), PadStart2(NatToString(secs)), PadStart2(NatToString(hundredths));
    ClockText(a, b, c);
    PaddedField(secs);
    PaddedField(hundredths);
    ParseNatToString(mins);
    ParseClockParts(a, b, c);
  }

  /** The whole-millisecond value of a split time. */
  lemma ClockArithmetic(milliseconds: nat)
    ensures ClockMillis(milliseconds / 1000 / 60, milliseconds / 1000 % 60, milliseconds % 1000 / 10)
         == milliseconds - milliseconds % 10
  {
    var t, r := milliseconds / 1000, milliseconds % 1000;
    var m, sec := t / 60, t % 60;
    var c := r / 10;
    assert milliseconds == 1000 * t + r;
    assert t == 60 * m + sec;
    assert r == 10 * c + r % 10;
    assert milliseconds == 10 * (100 * t + c) + r % 10;
    assert milliseconds % 10 == r % 10;
    assert m * 60000 + sec * 1000 == 1000 * t;
  }

  lemma FormatTimeParses(milliseconds: nat)
    ensures ParseClock(FormatTime(milliseconds))
         == Some(ClockMillis(milliseconds / 1000 / 60, milliseconds / 1000 % 60, milliseconds % 1000 / 10))
  {
    var mins, secs, hundredths := milliseconds / 1000 / 60, milliseconds / 1000 % 60, milliseconds % 1000 / 10;
    FormatTimeNonNegative(milliseconds);
    ParseClockFields(mins, secs, hundredths);
  }

  /** For a non-negative time the display reads back as the time with its last
      digit dropped: whole minutes, seconds and hundredths as two digits each,
      truncated, never rounded. */
  lemma FormatTimeRoundTrip(milliseconds: nat)
    ensures ParseClock(FormatTime(milliseconds)) == Some(milliseconds - milliseconds % 10)
  {
    FormatTimeParses(milliseconds);
    ClockArithmetic(milliseconds);
    var v := ClockMillis(milliseconds / 1000 / 60, milliseconds / 1000 % 60, milliseconds % 1000 / 10);
    var w := milliseconds - milliseconds % 10;
    assert v == w;
    assert Some(v) == Some(w);
  }

  /** Source behaviour for a negative time, which no tick produces: every
      field comes out negative. */
  lemma FormatTimeNegative()
    ensures FormatTime(-5) == "-1:-1.-1"
  {
    assert -5 / 1000 == -1 && -1 / 60 == -1 && -5 / 10 == -1;
    assert JsRem(-5, 1000) == -5 && JsRem(-1, 60) == -1;
    assert IntToString(-1) == "-1";
  }

  // ---------------------------------------------------------------- clock and timeout

  /** The interval effect: while a round is playing, each 10 ms tick
      dispatches `UPDATE_TIME(timeElapsed + 10)`; otherwise nothing. */
  function TimerTick(status: GameStatus, timeElapsed: int): (a: Option<Action>)
    ensures a.Some? <==> status == Playing
    ensures a.Some? ==> a.value == UpdateTime(timeElapsed + 10)
  {
    if status == Playing then Some(UpdateTime(timeElapsed + 10)) else None
  }

  /** The timeout effect: `COMPLETE_GAME(false)` exactly when two minutes
      have elapsed in a playing round. */
  function TimeoutCheck(status: GameStatus, timeElapsed: int): (a: Option<Action>)
    ensures a.Some? <==> timeElapsed >= 120000 && status == Playing
    ensures a.Some? ==> a.value == CompleteGame(false)
  {
    if timeElapsed >= 120000 && status == Playing then Some(CompleteGame(false)) else None
  }

  /** The "Back to Menu" button. */
  function BackToMenu(): (a: Action)
    ensures !TouchesGrid(a)
  {
    ResetGame
  }

  /** Leaving for the menu drops the round and keeps the best score. */
  lemma BackToMenuKeepsBest(s: GameState)
    ensures Apply(s, BackToMenu()).gameStatus == Menu
    ensures Apply(s, BackToMenu()).currentImage == None
    ensures Apply(s, BackToMenu()).bestScore == s.bestScore
  {
  }

  function Dispatch(s: GameState, a: Option<Action>): GameState
    requires a.Some? ==> !TouchesGrid(a.value)
  {
    if a.Some? then Apply(s, a.value) else s
  }

  /** One tick of the interval followed by the timeout effect's reaction. */
  function ClockStep(s: GameState): (t: GameState)
    ensures s.gameStatus != Playing ==> t == s
    ensures s.gameStatus == Playing && s.timeElapsed + 10 < 120000 ==> t == s.(timeElapsed := s.timeElapsed + 10)
    ensures s.gameStatus == Playing && s.timeElapsed + 10 >= 120000
        ==> t.gameStatus == Failed && t.score == 0 && t.timeElapsed == s.timeElapsed + 10
    ensures t.bestScore == s.bestScore && t.currentImage == s.currentImage && t.revealedPixels == s.revealedPixels
  {
    var s1 := Dispatch(s, TimerTick(s.gameStatus, s.timeElapsed));
    Dispatch(s1, TimeoutCheck(s1.gameStatus, s1.timeElapsed))
  }

  function RunClock(s: GameState, k: nat): GameState {
    if k == 0 then s else ClockStep(RunClock(s, k - 1))
  }

  /** Outside a playing round the clock does nothing. */
  lemma ClockIdle(s: GameState)
    requires s.gameStatus != Playing
    ensures ClockStep(s) == s
  {
  }

  /** Before the two minutes are up, `k` ticks advance the clock by `10 * k`
      milliseconds and change nothing else. */
  lemma {:induction false} ClockBeforeTimeout(s: GameState, k: nat)
    requires s.gameStatus == Playing && s.timeElapsed == 0
    requires k < 12000
    ensures RunClock(s, k) == s.(timeElapsed := 10 * k)
  {
    if k > 0 {
      ClockBeforeTimeout(s, k - 1);
    }
  }

  /** The 12000th tick ends the round as failed with score 0, and after that
      the clock stays idle. */
  lemma {:induction false} ClockTimesOut(s: GameState, k: nat)
    requires s.gameStatus == Playing && s.timeElapsed == 0
    requires k >= 12000
    ensures RunClock(s, k).gameStatus == Failed
    ensures RunClock(s, k).timeElapsed == 120000
    ensures RunClock(s, k).score == 0
    ensures RunClock(s, k).bestScore == s.bestScore
  {
    if k == 12000 {
      ClockBeforeTimeout(s, 11999);
    } else {
      ClockTimesOut(s, k - 1);
      ClockIdle(RunClock(s, k - 1));
    }
  }
}
