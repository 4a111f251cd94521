/** Clip start times: `hmsString` of src/motionDetection.py, without the text rendering. */
module Timestamps {

  /** Hours, minutes and (fractional) seconds of a time offset. */
  datatype Hms = Hms(hrs: int, mins: int, secs: real)

  /** The offset, in seconds, that a decomposition denotes. */
  function Total(t: Hms): real {
    (t.hrs * 3600) as real + (t.mins * 60) as real + t.secs
  }

  /** Minutes and seconds are in their clock range. */
  predicate Normal(t: Hms) {
    0 <= t.mins < 60 && 0.0 <= t.secs < 60.0
  }

  /** Splits an offset in seconds by floor division, first by 3600 and then by 60. */
  function ToHms(secValue: real): (t: Hms)
    ensures Normal(t)
    ensures Total(t) == secValue
    ensures t.hrs >= 0 <==> secValue >= 0.0
  {
    var hrs := (secValue / 3600.0).Floor;
    var rest := secValue - 3600.0 * hrs as real;
    var mins := (rest / 60.0).Floor;
    Hms(hrs, mins, rest - 60.0 * mins as real)
  }

  /** A normal decomposition of an offset is the one ToHms computes: the split is unique. */
  lemma ToHmsUnique(x: real, t: Hms)
    requires Normal(t) && Total(t) == x
    ensures ToHms(x) == t
  {
    var r := (t.mins * 60) as real + t.secs;
    assert 0.0 <= r < 3600.0;
    assert x / 3600.0 == t.hrs as real + r / 3600.0;
    assert (x / 3600.0).Floor == t.hrs;
    assert x - 3600.0 * t.hrs as real == r;
    assert r / 60.0 == t.mins as real + t.secs / 60.0;
    assert (r / 60.0).Floor == t.mins;
  }

  /** Later offsets get later decompositions, compared field by field. */
  predicate Before(a: Hms, b: Hms) {
    a.hrs < b.hrs
    || (a.hrs == b.hrs && a.mins < b.mins)
    || (a.hrs == b.hrs && a.mins == b.mins && a.secs < b.secs)
  }

  /** On normal decompositions, field-by-field order is the order of the offsets. */
  lemma BeforeIsTimeOrder(a: Hms, b: Hms)
    requires Normal(a) && Normal(b)
    ensures Before(a, b) <==> Total(a) < Total(b)
  {
    if a.hrs < b.hrs {
      assert Total(a) < (a.hrs * 3600 + 3600) as real;
    } else if b.hrs < a.hrs {
      assert Total(b) < (b.hrs * 3600 + 3600) as real;
    } else if a.mins < b.mins {
      assert Total(a) < (a.hrs * 3600 + a.mins * 60 + 60) as real;
    } else if b.mins < a.mins {
      assert Total(b) < (b.hrs * 3600 + b.mins * 60 + 60) as real;
    }
  }
}
