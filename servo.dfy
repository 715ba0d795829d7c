/**
 * The servo side of the controller: the three PWM channels, the pulse widths
 * they start from, the window a set request must respect, and the conversion
 * of a pulse width into the 16-bit duty value of a 50 Hz PWM output.
 */
module Servo {
  import opened Base

  /** The PWM channels by name; the stored map is keyed by these names. */
  const Names: set<string> := {"tilt", "zoom", "focus"}

  /** One PWM period at 50 Hz, in microseconds. */
  const PeriodUs := 20000

  /** The duty value of a signal that is high for the whole period. */
  const DutyFull := 65535

  /** The pulse widths a set request may store. */
  const MinUs := 1000
  const MaxUs := 2000

  /** Every stored pulse width lies in the window a set request enforces. */
  predicate InWindow(values: map<string, int>)
  {
    forall n :: n in values ==> MinUs <= values[n] <= MaxUs
  }

  /** The map used when nothing was saved: every channel centred at 1500 µs. */
  const Defaults: map<string, int> := map["tilt" := 1500, "zoom" := 1500, "focus" := 1500]

  /**
   * `load_pwm_values`: the saved map when the file exists, the defaults
   * otherwise. Reading and decoding the file is not modelled: `saved` is
   * what it held.
   */
  function LoadValues(saved: Option<map<string, int>>): (m: map<string, int>)
    ensures saved.None? ==> m.Keys == Names && InWindow(m) && forall n :: n in m ==> m[n] == 1500
    ensures saved.Some? ==> m == saved.value
  {
    match saved
    case None => Defaults
    case Some(stored) => stored
  }

  /**
   * `int(us * 65535 / 20000)`: the duty value for a pulse of `us`
   * microseconds, the exact quotient truncated toward zero.
   */
  function Duty(us: int): (d: int)
    ensures us >= 0 ==> d >= 0 && d * PeriodUs <= us * DutyFull < (d + 1) * PeriodUs
    ensures us < 0 ==> d <= 0 && -d * PeriodUs <= -us * DutyFull < (-d + 1) * PeriodUs
  {
    if us >= 0 then us * DutyFull / PeriodUs else -((-us) * DutyFull / PeriodUs)
  }

  /** A longer pulse never gets a smaller duty value. */
  lemma DutyMonotone(a: int, b: int)
    requires a <= b
    ensures Duty(a) <= Duty(b)
  {
    assert a * DutyFull <= b * DutyFull;
  }

  /** Any pulse that fits in the period has a duty value the 16-bit output accepts. */
  lemma DutyRange(us: int)
    requires 0 <= us <= PeriodUs
    ensures 0 <= Duty(us) <= DutyFull
  {
    DutyMonotone(us, PeriodUs);
  }

  /** The window's ends map to 3276 and 6553, so every accepted pulse gets a duty value between them. */
  lemma DutyWindow(us: int)
    requires MinUs <= us <= MaxUs
    ensures Duty(MinUs) == 3276 && Duty(MaxUs) == 6553
    ensures 3276 <= Duty(us) <= 6553
  {
    DutyMonotone(MinUs, us);
    DutyMonotone(us, MaxUs);
  }
}
