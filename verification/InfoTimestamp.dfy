/** INFO_TS: timestamps as 32-bit NTP seconds and a 32-bit fraction, and the recovery of the
    NTP era on receipt (section 9.3.2 of RTPS 2.3). */
module InfoTimestamp {
  import opened Wire

  const NTP_DELTA: int := 2208988800
  const ERA: int := 0x1_0000_0000
  const HALF_ERA: int := 0x8000_0000
  const NANOS: int := 1_000_000_000

  /** Seconds since the Unix epoch, and nanoseconds. */
  datatype RawTime = Time(sec: int, ns: int)

  type Time = t: RawTime | 0 <= t.ns < NANOS witness Time(0, 0)

  function Seconds(t: Time): (n: nat)
    ensures n < ERA
  {
    (t.sec + NTP_DELTA) % ERA
  }

  function Fraction(t: Time): (n: nat)
    ensures n < ERA
  {
    t.ns * ERA / NANOS
  }

  function Body(t: Time): (bs: Bytes)
    ensures |bs| == 8
  {
    LE(Seconds(t), 4) + LE(Fraction(t), 4)
  }

  /** The era nearest to the reference, halves away from zero. */
  function EraCount(diff: int): int
  {
    if diff >= 0 then (diff + HALF_ERA) / ERA else -((-diff + HALF_ERA) / ERA)
  }

  function Disambiguate(secs: nat, ref: int): int
  {
    secs + EraCount(ref + NTP_DELTA - secs) * ERA - NTP_DELTA
  }

  function Nanoseconds(frac: nat): (ns: int)
    requires frac < ERA
    ensures 0 <= ns < NANOS
  {
    frac * NANOS / ERA
  }

  function Parse(bs: Bytes, ref: int): Option<Time>
  {
    if |bs| < 8 then None
    else
      Pow256Values();
      Some(Time(Disambiguate(UnLE(bs[..4]), ref), Nanoseconds(UnLE(bs[4..8]))))
  }

  /** The seconds count from 1900, seventy years with seventeen leap days before 1970, and the
      fraction is the nanoseconds in units of 2^-32 seconds, cut off; the seconds come first. */
  lemma BodyLayout(t: Time)
    ensures UnLE(Body(t)[..4]) == (t.sec + (70 * 365 + 17) * 86400) % 0x1_0000_0000
    ensures var frac := UnLE(Body(t)[4..]);
      frac * 1_000_000_000 <= t.ns * 0x1_0000_0000 < (frac + 1) * 1_000_000_000
  {
    Pow256Values();
    assert Body(t)[..4] == LE(Seconds(t), 4) && Body(t)[4..] == LE(Fraction(t), 4);
    UnLEOfLE(Seconds(t), 4);
    UnLEOfLE(Fraction(t), 4);
  }

  /** A body that is too short has no timestamp, and what follows the eight bytes is ignored. */
  lemma ParseExact(bs: Bytes, rest: Bytes, ref: int)
    ensures Parse(bs, ref).Some? <==> |bs| >= 8
    ensures |bs| >= 8 ==> Parse(bs + rest, ref) == Parse(bs, ref)
  {
    if |bs| >= 8 { assert (bs + rest)[..4] == bs[..4] && (bs + rest)[4..8] == bs[4..8]; }
  }

  /** The fraction loses less than one nanosecond, and keeps order. */
  lemma FractionLoss(t: Time, u: Time)
    ensures t.ns - 1 <= Nanoseconds(Fraction(t)) <= t.ns
    ensures t.ns <= u.ns ==> Nanoseconds(Fraction(t)) <= Nanoseconds(Fraction(u))
  {
    var f, g := Fraction(t), Fraction(u);
    assert f * NANOS <= t.ns * ERA < f * NANOS + NANOS;
    assert t.ns <= u.ns ==> f <= g;
    assert f <= g ==> f * NANOS <= g * NANOS;
  }

  /** The exact condition for recovering the second: the clocks are within half an era of
      each other; a distance of exactly half an era is recovered on one side only, which
      depends on the sign of the rounded difference. */
  predicate WithinHalfEra(t: Time, ref: int)
  {
    || -HALF_ERA < t.sec - ref < HALF_ERA
    || (t.sec - ref == HALF_ERA && ref + NTP_DELTA >= Seconds(t))
    || (t.sec - ref == -HALF_ERA && ref + NTP_DELTA < Seconds(t))
  }

  lemma EraRecovered(t: Time, ref: int)
    ensures Disambiguate(Seconds(t), ref) == t.sec <==> WithinHalfEra(t, ref)
  {
    var secs, e := Seconds(t), (t.sec + NTP_DELTA) / ERA;
    assert t.sec + NTP_DELTA == e * ERA + secs;
    var d, diff := ref - t.sec, ref + NTP_DELTA - secs;
    assert diff == d + e * ERA;
    if diff >= 0 {
      assert (diff + HALF_ERA) / ERA == e + (d + HALF_ERA) / ERA;
    } else {
      assert (-diff + HALF_ERA) / ERA == -e + (-d + HALF_ERA) / ERA;
    }
  }

  /** Encoding and decoding recovers the second, in any era, and the nanosecond to within
      one below. */
  lemma RoundTrip(t: Time, ref: int)
    requires -HALF_ERA < t.sec - ref < HALF_ERA
    ensures var r := Parse(Body(t), ref);
      r.Some? && r.value.sec == t.sec && t.ns - 1 <= r.value.ns <= t.ns
  {
    Pow256Values();
    assert Body(t)[..4] == LE(Seconds(t), 4) && Body(t)[4..8] == LE(Fraction(t), 4);
    UnLEOfLE(Seconds(t), 4);
    UnLEOfLE(Fraction(t), 4);
    FractionLoss(t, t);
    EraRecovered(t, ref);
  }

  predicate NotAfter(t: Time, u: Time)
  {
    t.sec < u.sec || (t.sec == u.sec && t.ns <= u.ns)
  }

  lemma NotAfterIs(t: Time, u: Time)
    ensures NotAfter(t, u) <==> t.sec * 1_000_000_000 + t.ns <= u.sec * 1_000_000_000 + u.ns
  {
  }

  /** Decoded timestamps keep the order of the originals, each decoded at its own time. */
  lemma OrderPreserved(t: Time, u: Time, ref: int, later: int)
    requires -HALF_ERA < t.sec - ref < HALF_ERA && -HALF_ERA < u.sec - later < HALF_ERA && NotAfter(t, u)
    ensures var r, s := Parse(Body(t), ref), Parse(Body(u), later);
      r.Some? && s.Some? && NotAfter(r.value, s.value)
  {
    RoundTrip(t, ref);
    RoundTrip(u, later);
    Pow256Values();
    assert Body(t)[4..8] == LE(Fraction(t), 4) && Body(u)[4..8] == LE(Fraction(u), 4);
    UnLEOfLE(Fraction(t), 4);
    UnLEOfLE(Fraction(u), 4);
    FractionLoss(t, u);
  }
}
