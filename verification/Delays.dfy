// Delays that change only after a setback, and access that starts at a point in time.
module Delays {
  import opened Bytes

  const MIN_SETBACK: Seconds := 432000
  // Up to here, adding a delay or a setback to the clock does not overflow.
  const MAX_CLOCK: int := MAX_INT - 0x1_0000_0000

  type TimePoint = x: int | -0x8000_0000_0000_0000 <= x <= 0x7FFF_FFFF_FFFF_FFFF
  type Seconds = x: int | 0 <= x < 0x1_0000_0000

  // The sum of a point in time and a duration, which wraps around like an int64.
  function Later(t: TimePoint, d: Seconds): (r: TimePoint)
    ensures t <= MAX_CLOCK ==> r == t + d
  {
    if t + d > MAX_INT then t + d - 0x1_0000_0000_0000_0000 else t + d
  }

  datatype Delay = Delay(effectDate: TimePoint, valueBefore: Seconds, valueAfter: Seconds) {

    function Get(now: TimePoint): (r: Seconds)
    {
      if effectDate > now then valueBefore else valueAfter
    }

    function Setback(now: TimePoint, newDelay: Seconds, minSetback: Seconds): (r: Seconds)
    {
      var value := Get(now);
      if value > newDelay && value - newDelay > minSetback then value - newDelay else minSetback
    }

    function WithUpdate(now: TimePoint, newDelay: Seconds, minSetback: Seconds): (r: (Delay, TimePoint))
    {
      var effect := Later(now, Setback(now, newDelay, minSetback));
      (Delay(effect, Get(now), newDelay), effect)
    }

    // The earliest instant at which something requested at this time or later can take effect,
    // if the delay is not changed again.
    function Earliest(now: TimePoint): int
    {
      if effectDate > now then
        if now + valueBefore < effectDate + valueAfter then now + valueBefore else effectDate + valueAfter
      else now + valueAfter
    }
  }

  function NewDelay(delay: Seconds): (d: Delay)
  {
    Delay(0, 0, delay)
  }

  // An access without delay changes starts no earlier than that, and some request reaches it.
  lemma EarliestIsReached(d: Delay, now: TimePoint)
    ensures forall t: TimePoint :: now <= t ==> d.Earliest(now) <= t + d.Get(t)
    ensures exists t: TimePoint :: now <= t && t + d.Get(t) == d.Earliest(now)
  {
    var t: TimePoint := if d.effectDate > now && now + d.valueBefore > d.effectDate + d.valueAfter then d.effectDate else now;
    assert t + d.Get(t) == d.Earliest(now);
  }

  // The earliest instant moves only forward with the clock.
  lemma EarliestMonotone(d: Delay, now: TimePoint, later: TimePoint)
    requires now <= later
    ensures d.Earliest(now) <= d.Earliest(later)
  {
  }

  // A change never moves it back: right after the change it is the present plus the delay in force.
  lemma UpdateKeepsEarliest(d: Delay, now: TimePoint, newDelay: Seconds, minSetback: Seconds)
    requires now <= MAX_CLOCK && minSetback > 0
    ensures d.WithUpdate(now, newDelay, minSetback).0.Get(now) == d.Get(now)
    ensures d.WithUpdate(now, newDelay, minSetback).0.Earliest(now) == now + d.Get(now)
    ensures d.Earliest(now) <= d.WithUpdate(now, newDelay, minSetback).0.Earliest(now)
  {
  }

  // A change takes effect after the setback, and not before: at least the least setback, and as much as
  // the delay is lowered by if that is more.
  lemma UpdateTakesEffect(d: Delay, now: TimePoint, newDelay: Seconds, minSetback: Seconds)
    requires now <= MAX_CLOCK
    ensures var v, d', effect := d.Get(now), d.WithUpdate(now, newDelay, minSetback).0,
                                 d.WithUpdate(now, newDelay, minSetback).1;
            && effect >= now + minSetback && effect >= now + v - newDelay
            && (effect == now + minSetback || effect == now + v - newDelay)
            && forall t: TimePoint :: now <= t ==> d'.Get(t) == if t < effect then v else newDelay
  {
  }

  // Changes wait at least five days.
  lemma FiveDays()
    ensures MIN_SETBACK == 5 * 24 * 60 * 60
  {
  }

  // A new delay is in force from the start of the clock on.
  lemma NewDelayAtOnce(delay: Seconds, now: TimePoint)
    requires now >= 0
    ensures NewDelay(delay).Get(now) == delay
  {
  }

  datatype Access = Access(since: TimePoint) {

    predicate IsActiveAt(now: TimePoint)
    {
      since != 0 && since <= now
    }
  }

  function NewAccessWithDelay(since: TimePoint, delay: Seconds): (a: Access)
  {
    if since == 0 then Access(0) else Access(Later(since, delay))
  }

  // A membership requested now is active from the end of the delay on, and not before. At time zero it
  // never starts.
  lemma AccessStarts(now: TimePoint, delay: Seconds, later: TimePoint)
    requires now <= MAX_CLOCK
    ensures now != 0 && now + delay != 0 ==> (NewAccessWithDelay(now, delay).IsActiveAt(later) <==> now + delay <= later)
    ensures now == 0 ==> !NewAccessWithDelay(now, delay).IsActiveAt(later)
  {
  }
}
