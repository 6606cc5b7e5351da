/** The identification LED of a vehicle: the firmware's blinking code and its two tables. */
module LedCode {
  import opened Remainders

  const IDENTIFICATION_LED_PERIOD_TICKS: seq<nat> :=
    [1, 4, 7, 10, 13, 16, 7, 10, 13, 16, 19, 10, 13, 16, 19, 22, 13, 16, 19, 22, 25, 16, 19, 22, 25, 28]
  const IDENTIFICATION_LED_ENABLED_TICKS: seq<nat> :=
    [0, 2, 2, 2, 2, 2, 5, 5, 5, 5, 5, 8, 8, 8, 8, 8, 11, 11, 11, 11, 11, 14, 14, 14, 14, 14]

  const ID_COUNT: nat := 26

  function Period(id: nat): (p: nat)
    requires id < ID_COUNT
    ensures p > 0
  {
    IDENTIFICATION_LED_PERIOD_TICKS[id]
  }

  function Enabled(id: nat): nat
    requires id < ID_COUNT
  {
    IDENTIFICATION_LED_ENABLED_TICKS[id]
  }

  predicate Lit(id: nat, tick: nat)
    requires id < ID_COUNT
  {
    tick % Period(id) < Enabled(id)
  }

  /** The firmware's LED state in normal mode. */
  class Led {
    var vehicleId: nat
    var led4: bool

    ghost predicate Valid()
      reads this
    {
      vehicleId < 256
    }

    constructor ()
      ensures Valid() && vehicleId == 0 && !led4
    {
      vehicleId, led4 := 0, false;
    }

    /** Only a successful transmission, which carries a nonzero id, updates the id. */
    method SetState(vehicleIdIn: nat)
      requires Valid() && vehicleIdIn < 256
      modifies this`vehicleId
      ensures Valid() && vehicleId == if vehicleIdIn != 0 then vehicleIdIn else old(vehicleId)
    {
      if vehicleIdIn != 0 {
        vehicleId := vehicleIdIn;
      }
    }

    /** The tables end at id 25. */
    method Toggle(tick: nat)
      requires Valid() && vehicleId < ID_COUNT
      modifies this`led4
      ensures led4 == Lit(vehicleId, tick)
    {
      led4 := false;
      if tick % IDENTIFICATION_LED_PERIOD_TICKS[vehicleId] < IDENTIFICATION_LED_ENABLED_TICKS[vehicleId] {
        led4 := true;
      }
    }
  }

  /** The tables in closed form: on-times 2, 5, 8, 11, 14, each with off-times 2, 5, 8, 11, 14. */
  lemma ClosedForm(id: nat)
    requires 1 <= id < ID_COUNT
    ensures Enabled(id) == 2 + 3 * ((id - 1) / 5)
    ensures Period(id) == Enabled(id) + 2 + 3 * ((id - 1) % 5)
  {
    var a, b := (id - 1) / 5, (id - 1) % 5;
    assert id == 5 * a + b + 1;
    if a == 0 {
    } else if a == 1 {
    } else if a == 2 {
    } else if a == 3 {
    } else {
    }
  }

  /** Any two ids differ by at least 3 ticks in the on-time or in the period. */
  lemma EntriesApart(id: nat, other: nat)
    requires 1 <= id < ID_COUNT && 1 <= other < ID_COUNT && id != other
    ensures || Enabled(id) + 3 <= Enabled(other) || Enabled(other) + 3 <= Enabled(id)
            || Period(id) + 3 <= Period(other) || Period(other) + 3 <= Period(id)
  {
    hide Enabled, Period;
    ClosedForm(id);
    ClosedForm(other);
    var a, b, c, d := (id - 1) / 5, (id - 1) % 5, (other - 1) / 5, (other - 1) % 5;
    assert id == 5 * a + b + 1 && other == 5 * c + d + 1;
  }

  /** The signal `j` ticks back, told from the phase `phase` of tick `t`: two whole periods. */
  lemma LitBack(id: nat, t: nat, j: nat)
    requires 1 <= id < ID_COUNT && j <= t
    ensures var phase, p := t % Period(id), Period(id);
            && (j <= phase ==> Lit(id, t - j) == (phase - j < Enabled(id)))
            && (phase < j <= phase + p ==> Lit(id, t - j) == (phase + p - j < Enabled(id)))
            && (phase + p < j <= phase + 2 * p ==> Lit(id, t - j) == (phase + 2 * p - j < Enabled(id)))
  {
    var p, phase := Period(id), t % Period(id);
    var q := t / p;
    assert t == q * p + phase;
    if j <= phase {
      RemainderOf(q, p, phase - j);
    } else if j <= phase + p {
      BackOne(q, p, phase, j);
      RemainderOf(q - 1, p, phase + p - j);
    } else if j <= phase + 2 * p {
      BackTwo(q, p, phase, j);
      RemainderOf(q - 2, p, phase + 2 * p - j);
    }
  }

  lemma BackOne(q: nat, p: nat, phase: nat, j: nat)
    requires phase < p && phase < j <= q * p + phase
    ensures q >= 1 && (q - 1) * p + p == q * p
  {
    assert q == 0 ==> q * p == 0;
    assert (q - 1) * p + p == q * p;
  }

  lemma BackTwo(q: nat, p: nat, phase: nat, j: nat)
    requires phase < p && phase + p < j <= q * p + phase
    ensures q >= 2 && (q - 2) * p + 2 * p == q * p
  {
    assert q <= 1 ==> q * p <= 1 * p;
    assert (q - 2) * p + 2 * p == q * p;
  }
}
