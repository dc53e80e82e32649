/**
 * From civil time to seconds since the epoch: exact UTC, or the offset of a
 * VTIMEZONE whose daylight-saving time switches on two days every year.
 */
module Zones {
  import opened CivilDate
  import opened Weekdays

  const DAY: int := 86400

  datatype Civil = Civil(y: int, mo: int, d: int, h: int, mi: int, s: int)

  /** One STANDARD or DAYLIGHT section; month 0 means that it has no yearly rule. */
  datatype VtzRule = VtzRule(offsetSec: int, month: int, week: int, wday: int, timeSec: int)

  datatype Vtz = Vtz(std: VtzRule, dst: VtzRule, hasDst: bool)

  /** The zone of a date-time: a trailing Z, or a zone defined in the feed. */
  datatype Zone = Utc | InZone(vtz: Vtz)

  predicate ValidRule(r: VtzRule) {
    1 <= r.month <= 12 && 0 <= r.wday < 7
  }

  predicate ValidZone(zone: Zone) {
    zone.InZone? && zone.vtz.hasDst ==> ValidRule(zone.vtz.dst) && ValidRule(zone.vtz.std)
  }

  predicate ValidCivil(c: Civil) {
    ValidDate(Date(c.y, c.mo, c.d))
  }

  /** Whether local time c lies in the zone's daylight-saving window of its year. */
  predicate InDst(z: Vtz, c: Civil)
    requires ValidRule(z.dst) && ValidRule(z.std) && ValidCivil(c)
  {
    var dstDay := TransitionDayNum(c.y, z.dst.month, z.dst.week, z.dst.wday);
    var stdDay := TransitionDayNum(c.y, z.std.month, z.std.week, z.std.wday);
    var cSec := DaysFromCivil(c.y, c.mo, c.d) * DAY + c.h * 3600 + c.mi * 60;
    var dstStart := dstDay * DAY + z.dst.timeSec;
    var stdStart := stdDay * DAY + z.std.timeSec;
    if dstStart < stdStart then dstStart <= cSec < stdStart
    else dstStart <= cSec || cSec < stdStart
  }

  function TzOffset(zone: Zone, c: Civil): int
    requires ValidZone(zone) && ValidCivil(c)
  {
    match zone
    case Utc => 0
    case InZone(z) =>
      if !z.hasDst then z.std.offsetSec
      else if InDst(z, c) then z.dst.offsetSec
      else z.std.offsetSec
  }

  function EpochFromUtc(c: Civil): int
    requires ValidCivil(c)
  {
    DaysFromCivil(c.y, c.mo, c.d) * DAY + c.h * 3600 + c.mi * 60 + c.s
  }

  function CivilToEpoch(zone: Zone, c: Civil): int
    requires ValidZone(zone) && ValidCivil(c)
  {
    EpochFromUtc(c) - TzOffset(zone, c)
  }

  /** How far the zone's offset moves at a transition. */
  function DstJump(zone: Zone): (j: int)
    ensures j >= 0
  {
    if zone.Utc? || !zone.vtz.hasDst then 0
    else
      var d := zone.vtz.dst.offsetSec - zone.vtz.std.offsetSec;
      if d >= 0 then d else -d
  }

  /** The same time of day on another date. */
  function OnDay(base: Civil, dayNum: int): (c: Civil)
    ensures ValidCivil(c)
    ensures DaysFromCivil(c.y, c.mo, c.d) == dayNum
    ensures c.h == base.h && c.mi == base.mi && c.s == base.s
  {
    hide CivilFromDays, DaysFromCivil;
    RoundTripDays(dayNum);
    var d := CivilFromDays(dayNum);
    base.(y := d.y, mo := d.m, d := d.d)
  }

  /** Start of the occurrence that keeps the event's local time on the given day. */
  function OccurrenceAt(zone: Zone, base: Civil, dayNum: int): int
    requires ValidZone(zone)
  {
    CivilToEpoch(zone, OnDay(base, dayNum))
  }

  lemma OffsetSpread(zone: Zone, c: Civil, c': Civil)
    requires ValidZone(zone) && ValidCivil(c) && ValidCivil(c')
    ensures -DstJump(zone) <= TzOffset(zone, c) - TzOffset(zone, c') <= DstJump(zone)
  {
    hide InDst, ValidCivil;
  }

  /** Local clock differences are kept up to the daylight-saving jump. */
  lemma EpochSpread(zone: Zone, c: Civil, c': Civil)
    requires ValidZone(zone) && ValidCivil(c) && ValidCivil(c')
    requires c.h == c'.h && c.mi == c'.mi && c.s == c'.s
    ensures var days := DaysFromCivil(c'.y, c'.mo, c'.d) - DaysFromCivil(c.y, c.mo, c.d);
            var secs := CivilToEpoch(zone, c') - CivilToEpoch(zone, c);
            -DstJump(zone) <= secs - days * DAY <= DstJump(zone)
  {
    hide TzOffset, DstJump, DaysFromCivil, ValidCivil, ValidZone;
    OffsetSpread(zone, c, c');
  }

  /** Occurrences n days apart lie n * 86400 seconds apart, up to the daylight-saving jump. */
  lemma OccurrenceSpread(zone: Zone, base: Civil, a: int, b: int)
    requires ValidZone(zone)
    ensures var secs := OccurrenceAt(zone, base, b) - OccurrenceAt(zone, base, a);
            -DstJump(zone) <= secs - (b - a) * DAY <= DstJump(zone)
  {
    hide DaysFromCivil, CivilFromDays, CivilToEpoch, DstJump, ValidZone, ValidCivil;
    EpochSpread(zone, OnDay(base, a), OnDay(base, b));
  }

  /** With a jump under one day, a later day never has an earlier or equal occurrence. */
  lemma OccurrencesIncrease(zone: Zone, base: Civil, a: int, b: int)
    requires ValidZone(zone) && DstJump(zone) < DAY && a < b
    ensures OccurrenceAt(zone, base, a) < OccurrenceAt(zone, base, b)
  {
    hide OccurrenceAt, DstJump, ValidZone;
    OccurrenceSpread(zone, base, a, b);
  }

  /** The event's own start is the occurrence on its own day. */
  lemma BaseIsOccurrence(zone: Zone, base: Civil)
    requires ValidZone(zone) && ValidCivil(base)
    ensures OccurrenceAt(zone, base, DaysFromCivil(base.y, base.mo, base.d)) == CivilToEpoch(zone, base)
  {
    hide DaysFromCivil, CivilFromDays, CivilToEpoch, ValidZone;
    RoundTripDate(Date(base.y, base.mo, base.d));
  }
}
