/**
 * The event sensor of the Muntjac board (event-sensor.c): rising edges on the
 * rain gauge's interrupt pin are counted, with a debounce timer that ignores
 * the edges within one CLOCK_SECOND of the last one counted. The clock is a
 * parameter (`now`); the debounce timer is Contiki's `struct timer`, its
 * start time and interval, expired once `interval` ticks have passed since
 * `start`.
 */
module EventSensor {

  /** The `type` argument of configure and status: SENSORS_ACTIVE, SENSORS_READY, or any other code. */
  datatype Kind = Active | Ready | Other(code: int)

  /**
   * What configure(SENSORS_ACTIVE, c) does to the interrupt: arm it (set up
   * the pin, restart the count and the timer, enable the interrupt), disable
   * it, or leave it as it is.
   */
  datatype Action = Arm | Disarm | Keep

  /** Whether the interrupt is enabled after the action. */
  function EnabledAfter(action: Action, enabled: bool): (e: bool)
    ensures action == Arm ==> e
    ensures action == Disarm ==> !e
    ensures action == Keep ==> e == enabled
  {
    match action
    case Arm => true
    case Disarm => false
    case Keep => enabled
  }

  /**
   * The choice configure makes as written (lines 78-102): arm when
   * enabling is requested and the sensor is not active, disable otherwise,
   * which includes an enabling request on an active sensor.
   */
  function ActionAsWritten(c: int, enabled: bool): (action: Action)
    ensures action == Arm <==> c != 0 && !enabled
    ensures action != Keep
  {
    if c != 0 && !enabled then Arm else Disarm
  }

  /**
   * The choice configure evidently intends (the comment at line 77): arm
   * an inactive sensor on an enabling request, keep an active one as it is,
   * and disable on a request to disable.
   */
  function ConfigureAction(c: int, enabled: bool): (action: Action)
    ensures action == Arm <==> c != 0 && !enabled
    ensures action == Disarm <==> c == 0
  {
    if c == 0 then Disarm else if enabled then Keep else Arm
  }

  /** With the intended choice the sensor is active afterwards exactly when enabling was requested. */
  lemma ConfigureEnables(c: int, enabled: bool)
    ensures EnabledAfter(ConfigureAction(c, enabled), enabled) <==> c != 0
    ensures !enabled ==> ConfigureAction(c, enabled) == ActionAsWritten(c, enabled)
  {
  }

  /** As written, SENSORS_ACTIVATE on a sensor that is already active switches it off. */
  lemma ReactivateDisablesAsWritten()
    ensures !EnabledAfter(ActionAsWritten(1, true), true)
    ensures EnabledAfter(ConfigureAction(1, true), true)
  {
  }

  /** The debounce state: event_count and debounce_timer's start tick and interval. */
  datatype Debounce = Debounce(count: int, start: nat, interval: nat)

  /** The state configure leaves when it arms the sensor at tick `now`: no events, a timer of interval 0. */
  function Armed(now: nat): Debounce
  {
    Debounce(0, now, 0)
  }

  /** What event_isr does to the debounce state for an edge at tick `now`. */
  function IsrStep(d: Debounce, now: nat, second: nat): (r: Debounce)
    ensures r.count == d.count + 1 || r == d
    ensures r.count == d.count + 1 <==> now >= d.start + d.interval
  {
    if now >= d.start + d.interval then Debounce(d.count + 1, now, second) else d
  }

  /** The debounce state after edges at the given ticks. */
  function Run(d: Debounce, ticks: seq<nat>, second: nat): Debounce
  {
    if ticks == [] then d
    else IsrStep(Run(d, ticks[..|ticks| - 1], second), ticks[|ticks| - 1], second)
  }

  predicate Ascending(ticks: seq<nat>)
  {
    forall i, j :: 0 <= i < j < |ticks| ==> ticks[i] <= ticks[j]
  }

  /**
   * After arming, the first edge always counts, and counted edges are at
   * least CLOCK_SECOND apart: k counted edges span at least (k - 1) seconds
   * from the first edge. The timer stays armed at the last counted edge.
   */
  lemma {:induction false} DebounceSpacing(start: nat, ticks: seq<nat>, second: nat)
    requires ticks != [] && Ascending(ticks) && start <= ticks[0]
    ensures var d := Run(Armed(start), ticks, second);
      1 <= d.count <= |ticks| && d.interval == second
      && ticks[0] <= d.start <= ticks[|ticks| - 1]
      && (d.count - 1) * second <= d.start - ticks[0]
    decreases |ticks|
  {
    var init := ticks[..|ticks| - 1];
    var t := ticks[|ticks| - 1];
    if init == [] {
      assert Run(Armed(start), init, second) == Armed(start);
    } else {
      assert Ascending(init);
      DebounceSpacing(start, init, second);
      var d' := Run(Armed(start), init, second);
      assert d'.start <= init[|init| - 1] <= t;
      if t >= d'.start + d'.interval {
        assert d'.count * second == (d'.count - 1) * second + second;
      }
    }
  }

  /** The static state of event-sensor.c and the interrupt-enable bit of its pin. */
  class Sensor {
    /** CLOCK_SECOND, the debounce interval in clock ticks. */
    const second: nat
    /** GPIO_PIN_MASK(EVENT_PIN): the pin's bit in the interrupt-enable register. */
    const pinMask: nat
    /** event_count. */
    var count: int
    /** debounce_timer: the tick it was set at and its interval. */
    var timerStart: nat
    var timerInterval: nat
    /** The pin's bit in GPIO_IE: the interrupt is enabled. */
    var enabled: bool
    /** The number of sensors_changed notifications posted. */
    var notified: nat

    /** The debounce state held in the static variables. */
    function State(): Debounce
      reads this
    {
      Debounce(count, timerStart, timerInterval)
    }

    /** timer_expired(&debounce_timer) at tick `now`. */
    predicate Expired(now: nat)
      reads this
    {
      now >= timerStart + timerInterval
    }

    constructor (second: nat, pinMask: nat)
      requires pinMask > 0
      ensures this.second == second && this.pinMask == pinMask
      ensures count == 0 && !enabled && notified == 0
      ensures timerStart == 0 && timerInterval == 0
    {
      this.second := second;
      this.pinMask := pinMask;
      count := 0;
      timerStart := 0;
      timerInterval := 0;
      enabled := false;
      notified := 0;
    }

    /**
     * event_isr (lines 54-60): an edge is counted only when the debounce
     * timer has expired; it then re-arms the timer for CLOCK_SECOND from
     * now and notifies the sensor's listeners.
     */
    method Isr(now: nat)
      modifies this
      ensures State() == IsrStep(old(State()), now, second)
      ensures notified == old(notified) + (if old(Expired(now)) then 1 else 0)
      ensures enabled == old(enabled)
    {
      if Expired(now) {
        timerStart, timerInterval := now, second;
        count := count + 1;
        notified := notified + 1;
      }
    }

    /** A rising edge on the pin at tick `now`: the handler runs only while the interrupt is enabled. */
    method Edge(now: nat)
      modifies this
      ensures State() == if old(enabled) then IsrStep(old(State()), now, second) else old(State())
      ensures enabled == old(enabled)
    {
      if enabled {
        Isr(now);
      }
    }

    /** value (lines 62-71): the count before the call; the count is zeroed when `reset` is non-zero. */
    method Value(reset: int) returns (v: int)
      modifies this
      ensures v == old(count)
      ensures count == if reset != 0 then 0 else old(count)
      ensures timerStart == old(timerStart) && timerInterval == old(timerInterval)
      ensures enabled == old(enabled) && notified == old(notified)
    {
      v := count;
      if reset != 0 {
        count := 0;
      }
    }

    /** status (lines 111-120): the pin's interrupt-enable bit for SENSORS_ACTIVE and SENSORS_READY, 0 otherwise. */
    function Status(kind: Kind): (s: int)
      reads this
      ensures s != 0 <==> (kind == Active || kind == Ready) && enabled && pinMask != 0
    {
      if (kind == Active || kind == Ready) && enabled then pinMask else 0
    }

    /**
     * configure (lines 73-109), with the evidently intended choice on an
     * active sensor. Arming sets the count to 0 and the debounce timer to an
     * interval of 0, so that the first edge counts; disabling leaves the
     * count and the timer alone. SENSORS_ACTIVE gives 1, every other type 0
     * and no change.
     */
    method Configure(kind: Kind, c: int, now: nat) returns (r: int)
      requires pinMask > 0
      modifies this
      ensures r == if kind == Active then 1 else 0
      ensures kind != Active ==>
        count == old(count) && enabled == old(enabled)
        && timerStart == old(timerStart) && timerInterval == old(timerInterval)
      ensures kind == Active ==> enabled == EnabledAfter(ConfigureAction(c, old(enabled)), old(enabled))
      ensures kind == Active && ConfigureAction(c, old(enabled)) == Arm ==>
        State() == Armed(now)
      ensures kind == Active && ConfigureAction(c, old(enabled)) != Arm ==> State() == old(State())
      ensures notified == old(notified)
    {
      if kind != Active {
        return 0;
      }
      var action := ConfigureAction(c, Status(Active) != 0);
      if action == Arm {
        timerStart, timerInterval := now, 0;
        count := 0;
        enabled := true;
      } else if action == Disarm {
        enabled := false;
      }
      r := 1;
    }
  }
}
