/** Bit durations in microseconds, their tolerance windows and the classifier. */
module Timing {
  /** Durations of one transfer rate with closed tolerance intervals. */
  datatype Timing = Timing(
    oneMin: nat, one: nat, oneMax: nat,
    zeroMin: nat, zero: nat, zeroMax: nat,
    ackreqMin: nat, ackreq: nat, ackreqMax: nat,
    ack: nat)

  datatype Bit = Zero | One | Ackreq | Invalid

  /** Index of a transfer rate: 0 is fallback, 1 fast, 2 medium, 3 slow, 4 default. */
  type Rate = r: nat | r < 5 witness 0

  const FALLBACK: Rate := 0
  const DEFAULT: Rate := 4

  /** The constant table; the bounds are the nominal value times one plus or minus the tolerance, rounded down. */
  function TimingOf(rate: Rate): Timing {
    match rate
    case 0 => Timing(1080, 1200, 1320, 2160, 2400, 2640, 3240, 3600, 3960, 100)
    case 1 => Timing(7, 10, 13, 14, 20, 26, 42, 60, 78, 40)
    case 2 => Timing(16, 20, 24, 32, 40, 48, 48, 60, 72, 40)
    case 3 => Timing(32, 40, 48, 64, 80, 96, 96, 120, 144, 80)
    case _ => Timing(67, 75, 82, 135, 150, 165, 202, 225, 247, 100)
  }

  /** What the table is made from: nominal durations, the length of a pulse, and the tolerance in percent. */
  datatype Speed = Speed(one: nat, zero: nat, ackreq: nat, ack: nat, tolerance: nat)

  function SpeedOf(rate: Rate): Speed {
    match rate
    case 0 => Speed(1200, 2400, 3600, 100, 10)
    case 1 => Speed(10, 20, 60, 40, 30)
    case 2 => Speed(20, 40, 60, 40, 20)
    case 3 => Speed(40, 80, 120, 80, 20)
    case _ => Speed(75, 150, 225, 100, 10)
  }

  predicate IsFallbackOne(time: nat) {
    TimingOf(FALLBACK).oneMin <= time <= TimingOf(FALLBACK).oneMax
  }

  predicate IsOne(time: nat, rate: Rate) {
    TimingOf(rate).oneMin <= time <= TimingOf(rate).oneMax || IsFallbackOne(time)
  }

  predicate IsFallbackZero(time: nat) {
    TimingOf(FALLBACK).zeroMin <= time <= TimingOf(FALLBACK).zeroMax
  }

  predicate IsZero(time: nat, rate: Rate) {
    TimingOf(rate).zeroMin <= time <= TimingOf(rate).zeroMax || IsFallbackZero(time)
  }

  predicate IsFallbackAckreq(time: nat) {
    TimingOf(FALLBACK).ackreqMin <= time <= TimingOf(FALLBACK).ackreqMax
  }

  predicate IsAckreq(time: nat, rate: Rate) {
    TimingOf(rate).ackreqMin <= time <= TimingOf(rate).ackreqMax || IsFallbackAckreq(time)
  }

  function Time2Bit(time: nat, rate: Rate): Bit {
    if IsZero(time, rate) then Zero
    else if IsOne(time, rate) then One
    else if IsAckreq(time, rate) then Ackreq
    else Invalid
  }

  /** The nominal duration of a bit a transmitter sends at a rate. */
  function Nominal(bit: Bit, rate: Rate): nat
    requires bit != Invalid
  {
    match bit
    case Zero => TimingOf(rate).zero
    case One => TimingOf(rate).one
    case Ackreq => TimingOf(rate).ackreq
  }

  /** The interval a bit sent at a rate may arrive in; its lower end lies above the zero window for ackreq bits. */
  predicate InWindow(time: nat, bit: Bit, rate: Rate) {
    var t := TimingOf(rate);
    match bit
    case Zero => t.zeroMin <= time <= t.zeroMax
    case One => t.oneMin <= time <= t.oneMax
    case Ackreq => t.ackreqMin <= time <= t.ackreqMax && t.zeroMax < time
    case Invalid => false
  }

  /** A receiver understands exactly the windows of its own rate and of fallback, and never takes one bit for
      another. */
  lemma ClassifiesExactly(time: nat, bit: Bit, rate: Rate)
    requires bit != Invalid
    ensures Time2Bit(time, rate) == bit <==> InWindow(time, bit, rate) || InWindow(time, bit, FALLBACK)
  {
    match rate {
      case 0 => case 1 => case 2 => case 3 => case _ =>
    }
  }

  // ----- what the windows are

  /** The duration in the middle of a bit's window. */
  function Meant(bit: Bit, rate: Rate): nat
    requires bit != Invalid
  {
    match bit
    case Zero => SpeedOf(rate).zero
    case One => SpeedOf(rate).one
    case Ackreq => SpeedOf(rate).ackreq
  }

  /** Off by no more than the tolerance, with what is short of a whole microsecond forgiven at the lower end. */
  predicate Tolerated(time: nat, bit: Bit, rate: Rate)
    requires bit != Invalid
  {
    var tolerance: int := SpeedOf(rate).tolerance;
    Meant(bit, rate) * (100 - tolerance) < 100 * (time + 1) && 100 * time <= Meant(bit, rate) * (100 + tolerance)
  }

  /** Off by no more than the tolerance; what could be zero or ackreq is zero. */
  predicate TakenFor(time: nat, bit: Bit, rate: Rate)
    requires bit != Invalid
  {
    Tolerated(time, bit, rate) && (bit == Ackreq ==> !Tolerated(time, Zero, rate))
  }

  /** Every window of the table is the nominal duration give or take the tolerance. */
  lemma WindowIsTolerance(time: nat, bit: Bit, rate: Rate)
    requires bit != Invalid
    ensures Nominal(bit, rate) == Meant(bit, rate)
    ensures InWindow(time, bit, rate) <==> TakenFor(time, bit, rate)
  {
    match rate {
      case 0 => case 1 => case 2 => case 3 => case _ =>
    }
  }

  /** A duration is taken for a bit iff it is within tolerance of that bit's nominal duration, at the rate set or at
      fallback. */
  lemma UnderstoodWithinTolerance(time: nat, bit: Bit, rate: Rate)
    requires bit != Invalid
    ensures Time2Bit(time, rate) == bit <==> TakenFor(time, bit, rate) || TakenFor(time, bit, FALLBACK)
  {
    ClassifiesExactly(time, bit, rate);
    WindowIsTolerance(time, bit, rate);
    WindowIsTolerance(time, bit, FALLBACK);
  }

  /** Every nominal duration is in its window and understood. */
  lemma NominalIsUnderstood(bit: Bit, rate: Rate, receiver: Rate)
    requires bit != Invalid
    requires receiver == rate || rate == FALLBACK
    ensures InWindow(Nominal(bit, rate), bit, rate)
    ensures Time2Bit(Nominal(bit, rate), receiver) == bit
  {
    ClassifiesExactly(Nominal(bit, rate), bit, receiver);
    match rate {
      case 0 => case 1 => case 2 => case 3 => case _ =>
    }
  }

  /** At medium and slow speed the zero and ackreq windows share one endpoint, and zero gets it. */
  lemma SharedEndpointIsZero(time: nat, rate: Rate)
    ensures TimingOf(rate).ackreqMin <= time <= TimingOf(rate).ackreqMax && Time2Bit(time, rate) != Ackreq
       <==> (rate == 2 && time == 48) || (rate == 3 && time == 96)
  {
    match rate {
      case 0 => case 1 => case 2 => case 3 => case _ =>
    }
  }

  /** Which receivers understand ackreq bits sent at another rate: all of them at fallback, and fast ones those of
      medium speed. */
  lemma AckreqAcrossRates(sent: Rate, receiver: Rate)
    ensures (forall time :: InWindow(time, Ackreq, sent) ==> Time2Bit(time, receiver) == Ackreq)
       <==> sent == receiver || sent == FALLBACK || (sent == 2 && receiver == 1)
    ensures (forall time :: InWindow(time, Ackreq, sent) ==> Time2Bit(time, receiver) != Ackreq)
       <==> sent != receiver && sent != FALLBACK && !(sent == 2 && receiver == 1) && !(sent == 1 && receiver == 2)
  {
    var nominal := Nominal(Ackreq, sent);
    var earliest := TimingOf(sent).ackreqMin;
    ClassifiesExactly(nominal, Ackreq, receiver);
    assert InWindow(nominal, Ackreq, sent);
    assert sent == 1 ==> InWindow(earliest, Ackreq, sent);
    match sent {
      case 0 => case 1 => case 2 => case 3 => case _ =>
    }
  }

  // ----- transfer rates as a decoder compares them

  /** `requested < supported` on transfer rates: fallback is below nothing. */
  predicate RateBelow(requested: nat, supported: nat) {
    requested != FALLBACK && requested < supported
  }
}
