/**
 * The LED blink logic of `SensorAndLED` in the DogDetector sketches
 * (DogDetector_feb09a and DogDetector_feb09b): the LED state, the blink
 * period and the time of the next toggle, and the steps `toggleLed`,
 * `startBlinking`, `stopBlinking` and `updateLed` take on them. The two
 * revisions differ only in `stopBlinking`. The sensor classes keep these
 * three fields and are specified by the steps here.
 */
module LedBlink {
  import opened Common

  /** `next_toggle` (`unsigned long`), `toggle_period` (`int`) and `led_state`. */
  datatype Blinker = Blinker(nextToggle: u32, togglePeriod: i16, ledOn: bool)

  /** `toggleLed`: flip the LED. */
  function Toggle(b: Blinker): Blinker
  {
    b.(ledOn := !b.ledOn)
  }

  /**
   * `startBlinking(now, period)`: nothing when already blinking at that
   * period; otherwise the LED goes on, the period is taken, and the next
   * toggle moves `period` later (an `int` added to an `unsigned long`).
   */
  function Start(b: Blinker, period: i16): Blinker
  {
    if b.togglePeriod == period then b
    else Blinker(ToUnsigned(b.nextToggle + period), period, true)
  }

  /** DogDetector_feb09b `stopBlinking`: LED off, period and next toggle cleared, only while blinking. */
  function StopIfBlinking(b: Blinker): Blinker
  {
    if b.togglePeriod != 0 then Blinker(0, 0, false) else b
  }

  /** DogDetector_feb09a `stopBlinking`: LED off, period and next toggle cleared, always. */
  function Stop(b: Blinker): Blinker
  {
    Blinker(0, 0, false)
  }

  /** Whether `updateLed(now)` toggles: blinking, and the toggle time (compared as `unsigned long`) has come. */
  predicate Due(b: Blinker, now: i32)
  {
    b.togglePeriod != 0 && b.nextToggle <= ToUnsigned(now)
  }

  /** `updateLed(now)`: when due, toggle once and move the next toggle one period on. */
  function Update(b: Blinker, now: i32): Blinker
  {
    if Due(b, now) then Toggle(b).(nextToggle := ToUnsigned(b.nextToggle + b.togglePeriod)) else b
  }

  /** `updateLed` flips the LED exactly when it is due, never twice, and never changes the period. */
  lemma UpdateTogglesOnlyWhenDue(b: Blinker, now: i32)
    ensures Update(b, now).ledOn != b.ledOn <==> Due(b, now)
    ensures Update(b, now).togglePeriod == b.togglePeriod
    ensures !Due(b, now) ==> Update(b, now) == b
  {
  }

  /** Two due updates in a row bring the LED back and move the toggle time two periods on. */
  lemma TwoTogglesRestoreLed(b: Blinker, now1: i32, now2: i32)
    requires Due(b, now1) && Due(Update(b, now1), now2)
    ensures Update(Update(b, now1), now2).ledOn == b.ledOn
    ensures Update(Update(b, now1), now2).nextToggle == ToUnsigned(b.nextToggle + 2 * b.togglePeriod)
  {
    WrapAdd(b.nextToggle + b.togglePeriod, b.togglePeriod);
  }

  /** Starting again at the same period changes nothing. */
  lemma StartIsIdempotent(b: Blinker, period: i16)
    ensures Start(Start(b, period), period) == Start(b, period)
    ensures Start(b, period).togglePeriod == period
  {
  }

  /** Once stopped, updates leave the LED alone, in either revision. */
  lemma StoppedStaysStill(b: Blinker, now: i32)
    ensures Update(Stop(b), now) == Stop(b)
    ensures Update(StopIfBlinking(b), now) == StopIfBlinking(b)
  {
  }

  /** While blinking the two revisions' `stopBlinking` agree. */
  lemma StopsAgreeWhileBlinking(b: Blinker)
    requires b.togglePeriod != 0
    ensures StopIfBlinking(b) == Stop(b)
  {
  }

  /**
   * Where they differ: `startBlinking` with period 0 leaves the LED on with no
   * period, and then only the DogDetector_feb09a `stopBlinking` turns it off.
   */
  lemma StopsDifferAfterZeroPeriod(b: Blinker)
    requires b.togglePeriod != 0
    ensures Start(b, 0).ledOn && StopIfBlinking(Start(b, 0)).ledOn
    ensures !Stop(Start(b, 0)).ledOn
  {
  }
}
