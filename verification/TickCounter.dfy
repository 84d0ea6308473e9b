/** The Windows tick counter: readings of the performance counter are turned into microseconds one difference at a
    time, and the ticks that do not make up a whole microsecond are carried over to the next reading. */
module TickCounter {
  import opened Common

  const MICROS := 1_000_000
  const MAX_INT64 := 0x7FFF_FFFF_FFFF_FFFF
  const MAX_UINT64 := 0xFFFF_FFFF_FFFF_FFFF

  /** `last_perf_counter` and the microseconds accumulated in `current_ms`. */
  datatype Reading = Reading(last: int, micros: int)

  function Next(frequency: int, r: Reading, counter: int): Reading
    requires frequency > 0
  {
    var scaled := (counter - r.last) * MICROS;
    var remainder := (scaled % frequency) / MICROS;
    Reading(counter - remainder, r.micros + scaled / frequency)
  }

  ghost function After(frequency: int, start: int, counters: seq<int>): Reading
    requires frequency > 0
  {
    if counters == [] then Reading(start, 0) else
      Next(frequency, After(frequency, start, counters[..|counters|-1]), counters[|counters|-1])
  }

  ghost predicate NonDecreasing(start: int, counters: seq<int>) {
    && (forall i | 0 <= i < |counters| :: start <= counters[i])
    && (forall i, j | 0 <= i < j < |counters| :: counters[i] <= counters[j])
  }

  lemma InOrder(start: int, counters: seq<int>)
    requires NonDecreasing(start, counters) && counters != []
    ensures var earlier := counters[..|counters|-1];
            && NonDecreasing(start, earlier)
            && (if earlier == [] then start else earlier[|earlier|-1]) <= counters[|counters|-1]
  {}

  lemma AfterOneMore(frequency: int, start: int, counters: seq<int>, counter: int)
    requires frequency > 0
    ensures After(frequency, start, counters + [counter]) == Next(frequency, After(frequency, start, counters), counter)
  {
    assert (counters + [counter])[..|counters|] == counters;
    hide Next;
  }

  /** The ticks read but not accounted for, in units of a tick divided by MICROS. */
  function Lag(frequency: int, elapsed: int, micros: int): int {
    MICROS * elapsed - frequency * micros
  }

  lemma Divided(x: int, d: int)
    requires x >= 0 && d > 0
    ensures x == d * (x / d) + x % d && x / d >= 0 && 0 <= x % d
  {}

  /** Crediting `q` microseconds and carrying `p` ticks over, of a difference of `frequency * q + rest` scaled units. */
  lemma LagBalance(frequency: int, start: int, r: Reading, counter: int, q: int, rest: int, p: int)
    requires (counter - r.last) * MICROS == frequency * q + rest
    ensures Lag(frequency, counter - p - start, r.micros + q) ==
            Lag(frequency, r.last - start, r.micros) + rest - MICROS * p
  {
    assert frequency * (r.micros + q) == frequency * r.micros + frequency * q;
  }

  /** One reading: what is lost for good is the part of the scaled remainder below one tick. */
  lemma OneReading(frequency: int, start: int, r: Reading, counter: int)
    requires frequency > 0 && r.last <= counter
    ensures var n, scaled := Next(frequency, r, counter), (counter - r.last) * MICROS;
            && r.micros <= n.micros
            && n.last <= counter
            && Lag(frequency, n.last - start, n.micros) ==
               Lag(frequency, r.last - start, r.micros) + (scaled % frequency) % MICROS
            && Lag(frequency, counter - start, n.micros) ==
               Lag(frequency, r.last - start, r.micros) + scaled % frequency
  {
    hide Lag;
    var scaled := (counter - r.last) * MICROS;
    var rest := scaled % frequency;
    Divided(scaled, frequency);
    Divided(rest, MICROS);
    LagBalance(frequency, start, r, counter, scaled / frequency, rest, rest / MICROS);
    LagBalance(frequency, start, r, counter, scaled / frequency, rest, 0);
  }

  lemma {:induction false} LastReading(frequency: int, start: int, counters: seq<int>)
    requires frequency > 0 && NonDecreasing(start, counters)
    ensures var r := After(frequency, start, counters);
            && 0 <= Lag(frequency, r.last - start, r.micros) <= |counters| * (MICROS - 1)
            && r.last <= if counters == [] then start else counters[|counters|-1]
  {
    if counters != [] {
      var earlier := counters[..|counters|-1];
      InOrder(start, counters);
      LastReading(frequency, start, earlier);
      OneReading(frequency, start, After(frequency, start, earlier), counters[|counters|-1]);
    }
  }

  /** After n readings, the last of them T ticks after the start, the accumulated microseconds are never ahead of the
      time, and behind it by less than one microsecond and n - 1 ticks' worth of scaled units. */
  lemma Accuracy(frequency: int, start: int, counters: seq<int>)
    requires frequency > 0 && counters != [] && NonDecreasing(start, counters)
    ensures var elapsed := counters[|counters|-1] - start;
            var micros := After(frequency, start, counters).micros;
            0 <= 1_000_000 * elapsed - frequency * micros < frequency + 1_000_000 * (|counters| - 1)
  {
    var earlier := counters[..|counters|-1];
    InOrder(start, counters);
    LastReading(frequency, start, earlier);
    OneReading(frequency, start, After(frequency, start, earlier), counters[|counters|-1]);
  }

  /** A single reading shows the time that has passed: `frequency` ticks are a second. */
  lemma SingleReading(frequency: int, start: int, counter: int, seconds: int)
    requires frequency > 0
    ensures After(frequency, start, [counter]).micros == (1_000_000 * (counter - start)) / frequency
    ensures counter == start + seconds * frequency ==>
              && After(frequency, start, [counter]).micros == 1_000_000 * seconds
              && After(frequency, start, [counter]).micros / 1000 == 1000 * seconds
  {
    AfterOneMore(frequency, start, [], counter);
    assert [] + [counter] == [counter];
    if counter == start + seconds * frequency {
      var x := (counter - start) * MICROS;
      assert x == (1_000_000 * seconds) * frequency by { Reordered(seconds, frequency); }
      RemainderUnique(x, frequency, 1_000_000 * seconds, 0);
    }
  }

  lemma Reordered(x: int, y: int)
    ensures (x * y) * 1_000_000 == (1_000_000 * x) * y
  {}

  /** Readings never decrease, in microseconds or in milliseconds. */
  lemma ReadingsNeverDecrease(frequency: int, start: int, counters: seq<int>)
    requires frequency > 0 && counters != [] && NonDecreasing(start, counters)
    ensures var before := After(frequency, start, counters[..|counters|-1]).micros;
            var now := After(frequency, start, counters).micros;
            before <= now && before / 1000 <= now / 1000
  {
    var earlier := counters[..|counters|-1];
    InOrder(start, counters);
    LastReading(frequency, start, earlier);
    OneReading(frequency, start, After(frequency, start, earlier), counters[|counters|-1]);
  }

  /** A microsecond is a whole number of ticks, or a tick a whole number of microseconds. */
  predicate Commensurate(frequency: int)
    requires frequency > 0
  {
    frequency % MICROS == 0 || MICROS % frequency == 0
  }

  lemma {:induction false} NothingLost(frequency: int, start: int, counters: seq<int>)
    requires frequency > 0 && Commensurate(frequency) && NonDecreasing(start, counters)
    ensures var r := After(frequency, start, counters);
            Lag(frequency, r.last - start, r.micros) == 0
  {
    if counters != [] {
      var earlier := counters[..|counters|-1];
      InOrder(start, counters);
      var r := After(frequency, start, earlier);
      NothingLost(frequency, start, earlier);
      LastReading(frequency, start, earlier);
      OneReading(frequency, start, r, counters[|counters|-1]);
      NoFraction(frequency, counters[|counters|-1] - r.last);
    }
  }

  lemma NoFraction(frequency: int, ticks: int)
    requires frequency > 0 && Commensurate(frequency)
    ensures ((ticks * MICROS) % frequency) % MICROS == 0
  {
    if frequency % MICROS == 0 {
      RemainderOfMultiples(ticks, frequency / MICROS);
      RemainderUnique((ticks % (frequency / MICROS)) * MICROS, MICROS, ticks % (frequency / MICROS), 0);
    } else {
      var k := MICROS / frequency;
      assert ticks * MICROS == (ticks * k) * frequency + 0;
      RemainderUnique(ticks * MICROS, frequency, ticks * k, 0);
    }
  }

  lemma RemainderOfMultiples(ticks: int, k: int)
    requires k > 0
    ensures (ticks * MICROS) % (k * MICROS) == (ticks % k) * MICROS
  {
    var q := ticks / k;
    assert ticks == q * k + ticks % k;
    assert ticks * MICROS == q * (k * MICROS) + (ticks % k) * MICROS;
    assert 0 <= (ticks % k) * MICROS < k * MICROS;
    RemainderUnique(ticks * MICROS, k * MICROS, q, (ticks % k) * MICROS);
  }

  /** The value that a single reading would show. */
  function Exact(frequency: int, elapsed: int): int
    requires frequency > 0
  {
    (MICROS * elapsed) / frequency
  }

  lemma ExactIfCommensurate(frequency: int, start: int, counters: seq<int>)
    requires frequency > 0 && Commensurate(frequency)
    requires counters != [] && NonDecreasing(start, counters)
    ensures After(frequency, start, counters).micros == Exact(frequency, counters[|counters|-1] - start)
  {
    var earlier := counters[..|counters|-1];
    InOrder(start, counters);
    var elapsed := counters[|counters|-1] - start;
    var micros := After(frequency, start, counters).micros;
    NothingLost(frequency, start, earlier);
    LastReading(frequency, start, earlier);
    OneReading(frequency, start, After(frequency, start, earlier), counters[|counters|-1]);
    RemainderUnique(MICROS * elapsed, frequency, micros, Lag(frequency, elapsed, micros));
  }

  /** The n-th multiple of a step, for every n up to a number. */
  function Steps(step: int, number: nat): (counters: seq<int>)
    ensures |counters| == number
  {
    if number == 0 then [] else Steps(step, number - 1) + [number * step]
  }

  lemma {:induction false} StepsInOrder(step: int, number: nat)
    requires step > 0
    ensures forall i | 0 <= i < number :: Steps(step, number)[i] == (i + 1) * step
    ensures NonDecreasing(0, Steps(step, number))
  {
    if number > 0 { StepsInOrder(step, number - 1); }
    forall i, j | 0 <= i < j < number ensures Steps(step, number)[i] <= Steps(step, number)[j] {
      assert (j + 1) * step == (i + 1) * step + (j - i) * step;
      assert (j - i) * step >= 0;
    }
  }

  /** Reading at every `step`-th tick, when that shows `micros` and a fraction of a microsecond below a tick is left. */
  lemma {:induction false} SameEachTime(frequency: int, step: int, micros: int, number: nat)
    requires frequency > 0
    requires 0 <= step * MICROS - micros * frequency < MICROS
    requires step * MICROS - micros * frequency < frequency
    ensures After(frequency, 0, Steps(step, number)) == Reading(number * step, number * micros)
  {
    if number > 0 {
      var all := Steps(step, number);
      SameEachTime(frequency, step, micros, number - 1);
      assert all[..|all|-1] == Steps(step, number - 1);
      assert number * step - (number - 1) * step == step;
      assert number * micros - (number - 1) * micros == micros;
      RemainderUnique(step * MICROS, frequency, micros, step * MICROS - micros * frequency);
    }
  }

  /** A step that is not a whole number of microseconds, and by how much. */
  lemma UnevenStep(frequency: int) returns (step: int, micros: int, rest: int)
    requires frequency > 0 && !Commensurate(frequency)
    ensures step > 0 && step * MICROS == frequency * micros + rest && 0 < rest < MICROS && rest < frequency
  {
    step := frequency / MICROS + 1;
    micros := (step * MICROS) / frequency;
    rest := (step * MICROS) % frequency;
    if frequency > MICROS {
      RemainderUnique(step * MICROS, frequency, 1, step * MICROS - frequency);
    }
  }

  lemma ManySteps(number: int, step: int, micros: int, rest: int)
    requires step * MICROS == number * micros + rest
    ensures MICROS * (number * step) == (number * micros + rest) * number
  {
    assert MICROS * (number * step) == number * (step * MICROS);
  }

  /** For all other frequencies time can be lost: reading often enough at the right moments shows less than a single
      reading would. */
  lemma CanLoseTime(frequency: int)
    requires frequency > 0 && !Commensurate(frequency)
    ensures exists counters: seq<int> :: counters != [] && NonDecreasing(0, counters) &&
              After(frequency, 0, counters).micros < Exact(frequency, counters[|counters|-1])
  {
    hide After, Exact;
    var step, micros, rest := UnevenStep(frequency);
    var counters := Steps(step, frequency);
    StepsInOrder(step, frequency);
    SameEachTime(frequency, step, micros, frequency);
    ExactOfMany(frequency, step, micros, rest);
    assert counters[|counters|-1] == frequency * step;
  }

  lemma ExactOfMany(frequency: int, step: int, micros: int, rest: int)
    requires frequency > 0 && step * MICROS == frequency * micros + rest
    ensures Exact(frequency, frequency * step) == frequency * micros + rest
  {
    ManySteps(frequency, step, micros, rest);
    RemainderUnique(MICROS * (frequency * step), frequency, frequency * micros + rest, 0);
  }

  /** Reading more often never costs accuracy exactly for the commensurate frequencies. */
  lemma ExactExactlyIfCommensurate(frequency: int)
    requires frequency > 0
    ensures Commensurate(frequency) <==>
              forall start: int, counters: seq<int> | counters != [] && NonDecreasing(start, counters) ::
                After(frequency, start, counters).micros == Exact(frequency, counters[|counters|-1] - start)
  {
    if Commensurate(frequency) {
      forall start: int, counters: seq<int> | counters != [] && NonDecreasing(start, counters)
        ensures After(frequency, start, counters).micros == Exact(frequency, counters[|counters|-1] - start)
      {
        ExactIfCommensurate(frequency, start, counters);
      }
    } else {
      CanLoseTime(frequency);
      var counters: seq<int> :| counters != [] && NonDecreasing(0, counters) &&
                                After(frequency, 0, counters).micros < Exact(frequency, counters[|counters|-1]);
      assert counters[|counters|-1] - 0 == counters[|counters|-1];
    }
  }

  /** TICK_COUNTER_INSTANCE on a machine with a performance counter. */
  class Counter {
    const frequency: int
    var last: int
    var current: int
    ghost const start: int
    ghost var readings: seq<int>

    ghost predicate Valid()
      reads this
    {
      frequency > 0 && NonDecreasing(start, readings) && Reading(last, current) == After(frequency, start, readings)
    }

    constructor (frequency: int, counter: int)
      requires frequency > 0
      ensures Valid() && start == counter && readings == []
    {
      this.frequency, last, current := frequency, counter, 0;
      start, readings := counter, [];
    }

    /** The arithmetic of a reading. */
    method Accumulate(counter: int)
      requires frequency > 0
      modifies `last, `current
      ensures Reading(last, current) == Next(frequency, Reading(old(last), old(current)), counter)
    {
      var scaled := (counter - last) * MICROS;
      var remainder := (scaled % frequency) / MICROS;
      current := current + scaled / frequency;
      last := counter - remainder;
    }

    /** `tickcounter_get_current_ms`; `counter` is absent when the performance counter cannot be read. The hardware
        counter does not run backwards, and the difference of two readings can be scaled in 64 bits. */
    method GetCurrentMs(counter: Option<int>) returns (ok: bool, ms: int)
      requires Valid()
      requires counter.Some? ==>
                 && NonDecreasing(start, readings + [counter.value])
                 && (counter.value - last) * MICROS <= MAX_INT64
                 && current + (counter.value - last) * MICROS / frequency <= MAX_UINT64
      modifies `last, `current, `readings
      ensures Valid()
      ensures ok <==> counter.Some?
      ensures readings == if ok then old(readings) + [counter.value] else old(readings)
      ensures ok ==> ms == current / 1000
      ensures ok ==> ms >= old(current) / 1000
    {
      ok, ms := false, 0;
      if counter.Some? {
        hide Next, After, NonDecreasing;
        ghost var all := readings + [counter.value];
        assert all[..|readings|] == readings;
        ReadingsNeverDecrease(frequency, start, all);
        AfterOneMore(frequency, start, readings, counter.value);
        Accumulate(counter.value);
        ms := current / 1000;
        ok := true;
        readings := all;
      }
    }
  }
}
