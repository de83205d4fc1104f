/** The collaboration page's session clock and partner bookkeeping: the
    three-minute countdown restarted by `start-timer` or by continuing
    alone, its one-second ticks, the mm:ss display, and the partner-quit
    popup. Socket wiring, the editor binding and voice chat are left out. */
module CollabPage {
  import opened Text

  // ---------------------------------------------------------------------
  // formatTime

  /** `padStart(2, '0')`. */
  function Pad2(s: string): (r: string)
    ensures |s| >= 2 ==> r == s
    ensures |s| < 2 ==> |r| == 2 && r[2 - |s|..] == s && forall i | 0 <= i < 2 - |s| :: r[i] == '0'
  {
    if |s| >= 2 then s else if |s| == 1 then "0" + s else "00"
  }

  /** JavaScript's `%`, whose remainder takes the sign of the dividend. */
  function JsRem(a: int, b: int): (r: int)
    requires b > 0
    ensures a >= 0 ==> 0 <= r < b
    ensures a < 0 ==> -b < r <= 0
    ensures a >= 0 ==> r == a % b
  {
    if a >= 0 then a % b else -((-a) % b)
  }

  /** The remainder is symmetric under negation, unlike Euclidean `%`. */
  lemma JsRemOdd(a: int, b: int)
    requires b > 0
    ensures JsRem(-a, b) == -JsRem(a, b)
  {
  }

  /** `formatTime`: minutes and seconds, each padded to two digits.
      `Math.floor(s / 60)` is Dafny's `/` since the divisor is positive. */
  function FormatTime(seconds: int): (r: string)
    ensures 0 <= seconds < 6000 ==> |r| == 5 && r[2] == ':'
  {
    Pad2Shape(seconds / 60);
    Pad2Shape(JsRem(seconds, 60));
    Pad2(IntToString(seconds / 60)) + ":" + Pad2(IntToString(JsRem(seconds, 60)))
  }

  /** A number below 100 pads to two digits. */
  lemma Pad2Shape(n: int)
    ensures 0 <= n < 100 ==> |Pad2(IntToString(n))| == 2
  {
  }

  /** All characters are decimal digits. */
  predicate AllDigits(s: string) {
    forall i | 0 <= i < |s| :: IsDigit(s[i])
  }

  /** A number below 100, padded, reads back as itself. */
  lemma Pad2Value(n: nat)
    requires n < 100
    ensures |Pad2(NatToString(n))| == 2 && AllDigits(Pad2(NatToString(n)))
    ensures DecimalValue(Pad2(NatToString(n))) == n
  {
    DecimalOfNatToString(n);
    if n < 10 {
      var p := Pad2(NatToString(n));
      assert p[..1] == "0";
      assert DecimalValue("0") == 0 by {
        assert "0"[..0] == [];
      }
      assert p[..|p| - 1] == "0";
    }
  }

  /** Reading the display back: for a countdown below 100 minutes, the two
      fields are the whole minutes and the remaining seconds, and together
      they give the countdown. */
  lemma {:induction false} FormatTimeReadsBack(seconds: nat)
    requires seconds < 6000
    ensures var r := FormatTime(seconds);
      && AllDigits(r[..2]) && AllDigits(r[3..])
      && DecimalValue(r[..2]) == seconds / 60
      && DecimalValue(r[3..]) == seconds % 60 < 60
      && DecimalValue(r[..2]) * 60 + DecimalValue(r[3..]) == seconds
  {
    var r := FormatTime(seconds);
    Pad2Value(seconds / 60);
    Pad2Value(seconds % 60);
    var m := Pad2(NatToString(seconds / 60));
    var s := Pad2(NatToString(seconds % 60));
    assert r == m + ":" + s;
    assert r[..2] == m;
    assert r[3..] == s;
  }

  // ---------------------------------------------------------------------
  // the countdown

  /** The initial and restart value of the countdown, in seconds. */
  const SessionSeconds := 180

  /** The page state the countdown touches: the remaining seconds, the
      time-over flag, whether an interval is running, the solo-session
      flag, the partner-quit flag and the session-start snackbar. */
  datatype Clock = Clock(countdown: int, timeOver: bool, running: bool, solo: bool,
                         partnerLeft: bool, snackbar: bool)

  const InitialClock := Clock(SessionSeconds, false, false, false, false, false)

  /** Events the page reacts to: `start-timer` from the server, one firing
      of the one-second interval, the continue-alone button, `user-left`
      from the server, and dismissing the partner-quit popup. */
  datatype PageEvent = StartTimer | Tick | ContinueAlone | UserLeft | DismissPartnerQuit

  /** The countdown is idle at its start value, running with seconds left,
      or over at zero. */
  ghost predicate Inv(c: Clock) {
    && 0 <= c.countdown <= SessionSeconds
    && (c.running ==> c.countdown >= 1 && !c.timeOver)
    && (c.timeOver ==> c.countdown == 0 && !c.running)
    && (!c.running && !c.timeOver ==> c.countdown == SessionSeconds)
  }

  /** `setCountdown(180); setTimeOver(false); startCountdown()`: the old
      interval is cleared and a new one started, and the snackbar shown. */
  function Restart(c: Clock): (r: Clock)
    ensures r.countdown == SessionSeconds && !r.timeOver && r.running && r.snackbar
    ensures r.solo == c.solo && r.partnerLeft == c.partnerLeft
  {
    c.(countdown := SessionSeconds, timeOver := false, running := true, snackbar := true)
  }

  /** One firing of the interval: the countdown drops by one, and when it
      was at most one the interval is cleared and time is over. */
  function TickOnce(c: Clock): (r: Clock)
    ensures !c.running ==> r == c
    ensures c.running ==> r.countdown == c.countdown - 1 && (r.timeOver <==> c.countdown <= 1 || c.timeOver)
    ensures c.running ==> (r.running <==> c.countdown > 1)
    ensures r.(countdown := c.countdown, timeOver := c.timeOver, running := c.running) == c
  {
    if !c.running then c
    else if c.countdown <= 1 then c.(countdown := c.countdown - 1, timeOver := true, running := false)
    else c.(countdown := c.countdown - 1)
  }

  /** The page's reaction to one event. */
  function Step(c: Clock, e: PageEvent): (r: Clock)
    ensures e == StartTimer ==> r == Restart(c)
    ensures e == ContinueAlone ==> r == Restart(c).(solo := true)
    ensures e == UserLeft ==> r == c.(partnerLeft := true)
    ensures e == DismissPartnerQuit ==> r == c.(partnerLeft := false)
    ensures e == Tick ==> r == TickOnce(c)
  {
    match e
    case StartTimer => Restart(c)
    case Tick => TickOnce(c)
    case ContinueAlone => Restart(c).(solo := true)
    case UserLeft => c.(partnerLeft := true)
    case DismissPartnerQuit => c.(partnerLeft := false)
  }

  lemma InitInv()
    ensures Inv(InitialClock)
  {
  }

  /** Every event keeps the countdown idle, running or over. */
  lemma StepInv(c: Clock, e: PageEvent)
    requires Inv(c)
    ensures Inv(Step(c, e))
  {
  }

  /** `k` firings of the interval. */
  function Ticks(c: Clock, k: nat): Clock
    decreases k
  {
    if k == 0 then c else Ticks(TickOnce(c), k - 1)
  }

  /** A running countdown stays running for fewer ticks than it has seconds
      left, and is over, at zero, after exactly that many; further ticks
      change nothing. */
  lemma {:induction false} TicksRunOut(c: Clock, k: nat)
    requires Inv(c) && c.running
    ensures k < c.countdown ==> Ticks(c, k) == c.(countdown := c.countdown - k)
    ensures k >= c.countdown ==>
      Ticks(c, k) == c.(countdown := 0, timeOver := true, running := false)
    decreases k
  {
    if k > 0 {
      var n := TickOnce(c);
      if c.countdown > 1 {
        TicksRunOut(n, k - 1);
      } else {
        IdleTicks(n, k - 1);
      }
    }
  }

  /** Ticks without a running interval change nothing. */
  lemma {:induction false} IdleTicks(c: Clock, k: nat)
    requires !c.running
    ensures Ticks(c, k) == c
    decreases k
  {
    if k > 0 {
      IdleTicks(TickOnce(c), k - 1);
    }
  }

  /** After a `start-timer`, time is over after exactly 180 ticks. */
  lemma SessionLastsThreeMinutes(c: Clock)
    ensures !Ticks(Restart(c), SessionSeconds - 1).timeOver
    ensures Ticks(Restart(c), SessionSeconds - 1).countdown == 1
    ensures Ticks(Restart(c), SessionSeconds).timeOver
    ensures Ticks(Restart(c), SessionSeconds).countdown == 0
  {
    TicksRunOut(Restart(c), SessionSeconds - 1);
    TicksRunOut(Restart(c), SessionSeconds);
  }

  /** The partner-quit popup: not solo, the partner has left, and time
      remains. */
  predicate ShowsPartnerQuit(c: Clock) {
    !c.solo && c.partnerLeft && c.countdown > 0
  }

  /** Once the user continues alone, no later event shows the partner-quit
      popup again. */
  lemma {:induction false} SoloHidesPartnerQuit(c: Clock, events: seq<PageEvent>)
    requires c.solo
    ensures var r := Run(c, events); r.solo && !ShowsPartnerQuit(r)
    decreases |events|
  {
    if events != [] {
      SoloHidesPartnerQuit(Step(c, events[0]), events[1..]);
    }
  }

  /** The page after a sequence of events. */
  function Run(c: Clock, events: seq<PageEvent>): Clock
    decreases |events|
  {
    if events == [] then c else Run(Step(c, events[0]), events[1..])
  }

  /** When time is over the popup is hidden even if the partner left. */
  lemma TimeOverHidesPartnerQuit(c: Clock)
    requires Inv(c) && c.timeOver
    ensures !ShowsPartnerQuit(c)
  {
  }

  // ---------------------------------------------------------------------
  // partner selection

  /** The other participant of the match: `user2` when the current user is
      `user1`, otherwise `user1`. */
  function Partner(user1: string, user2: string, me: string): (r: string)
    ensures r == user1 || r == user2
    ensures (me == user1 || me == user2) && user1 != user2 ==> r != me
    ensures me == user2 && user1 != user2 ==> r == user1
  {
    if user1 == me then user2 else user1
  }

  /** The two participants each see the other as partner. */
  lemma PartnersAreMutual(user1: string, user2: string)
    requires user1 != user2
    ensures Partner(user1, user2, user1) == user2 && Partner(user1, user2, user2) == user1
  {
  }
}
