/** The conditions of a packet control rule: the condition checks of packet_level_fib_control.c.
    The clock is passed in, and a custom callback is an arbitrary function of the message. */
module RuleConditions {
  import opened Bytes

  datatype Kind = OnName | OnTime | OnSource | OnChunk | OnCustom

  datatype NameCond = NameCond(pattern: seq<byte>, matchType: nat)

  /** An interval of no seconds has no meaning: the check divides by it. */
  type Span = n: nat | 0 < n witness 1

  datatype TimeCond =
    | Always
    | Period(start: nat, end: nat)
    | Schedule(weekdays: bv8, startHour: nat, endHour: nat)
    | Interval(seconds: Span)
    | OtherTime

  datatype SourceCond = SourceCond(faceid: nat, nodeId: seq<byte>)
  datatype ChunkCond = ChunkCond(min: nat, max: nat)

  datatype Conditions = Conditions(kinds: set<Kind>, name: NameCond, time: TimeCond, source: SourceCond,
                                   chunk: ChunkCond, custom: Option<(seq<byte>, nat, nat) -> bool>)

  datatype Packet = Packet(msg: seq<byte>, payloadLen: nat, headerLen: nat, faceid: nat, name: seq<byte>,
                           chunk: Option<nat>)

  datatype Clock = Clock(seconds: nat, micros: nat, weekday: Weekday, hour: nat)
  type Weekday = n: nat | n < 7

  /** `pattern` occurs somewhere in `name`. */
  ghost predicate Occurs(name: seq<byte>, pattern: seq<byte>) {
    exists i :: OccursAt(name, pattern, i)
  }

  predicate OccursAt(name: seq<byte>, pattern: seq<byte>, i: int) {
    0 <= i <= |name| - |pattern| && name[i..i + |pattern|] == pattern
  }

  ghost predicate NameHolds(name: seq<byte>, cond: NameCond) {
    cond.pattern == [] ||
    (match cond.matchType
     case 1 => name == cond.pattern
     case 2 => cond.pattern <= name
     case 3 => Occurs(name, cond.pattern)
     case _ => false)
  }

  /** Day `d` is in a weekday mask, whose lowest bit is Sunday. */
  predicate OnDay(mask: bv8, d: Weekday) {
    (mask >> d) & 1 == 1
  }

  /** The hours of a window that may run past midnight; equal ends leave the hour open. */
  predicate HourHolds(start: nat, end: nat, hour: nat) {
    start == end || (if start < end then start <= hour < end else !(end <= hour < start))
  }

  /** Counted round the clock, a window holds the hours from its start up to, not including, its end. */
  lemma HourWindow(start: nat, end: nat, hour: nat)
    requires start < 24 && end < 24 && hour < 24
    ensures HourHolds(start, end, hour) <==> start == end || (hour + 24 - start) % 24 < (end + 24 - start) % 24
  {
  }

  predicate TimeHolds(cond: TimeCond, clock: Clock) {
    match cond
    case Always => true
    case Period(start, end) => start <= clock.seconds * 1_000_000 + clock.micros <= end
    case Schedule(weekdays, startHour, endHour) =>
      && (weekdays != 0 ==> OnDay(weekdays, clock.weekday))
      && HourHolds(startHour, endHour, clock.hour)
    case Interval(seconds) => clock.seconds % seconds == 0
    case OtherTime => false
  }

  predicate SourceHolds(faceid: nat, nodeId: Option<seq<byte>>, cond: SourceCond) {
    && cond.faceid in {0, faceid}
    && (cond.nodeId != [] ==> nodeId == Some(cond.nodeId))
  }

  /** No maximum is no upper bound; a packet without a chunk number needs a condition without bounds. */
  predicate ChunkHolds(chunk: Option<nat>, cond: ChunkCond) {
    if chunk.Some? then cond.min <= chunk.value && (cond.max != 0 ==> chunk.value <= cond.max)
    else cond == ChunkCond(0, 0)
  }

  /** Every condition a rule names holds of a packet. */
  ghost predicate Holds(c: Conditions, p: Packet, clock: Clock)
  {
    && (OnName in c.kinds ==> NameHolds(p.name, c.name))
    && (OnTime in c.kinds ==> TimeHolds(c.time, clock))
    && (OnSource in c.kinds ==> SourceHolds(p.faceid, None, c.source))
    && (OnChunk in c.kinds ==> ChunkHolds(p.chunk, c.chunk))
    && (OnCustom in c.kinds && c.custom.Some? ==> c.custom.value(p.msg, p.payloadLen, p.headerLen))
  }

  /** Evaluation passes no node id, so a source condition holds of a packet exactly when it names no
      node id and no other face. */
  lemma SourceInEvaluation(faceid: nat, cond: SourceCond)
    ensures SourceHolds(faceid, None, cond) <==> cond.nodeId == [] && (cond.faceid == 0 || cond.faceid == faceid)
  {
  }

  method NamePatternMatch(name: seq<byte>, cond: NameCond) returns (r: bool)
    ensures r <==> NameHolds(name, cond)
  {
    if |cond.pattern| == 0 {
      return true;
    }
    match cond.matchType {
      case 1 =>
        return |name| == |cond.pattern| && name == cond.pattern;
      case 2 =>
        return |name| >= |cond.pattern| && name[..|cond.pattern|] == cond.pattern;
      case 3 =>
        if |name| < |cond.pattern| {
          assert forall i :: !OccursAt(name, cond.pattern, i);
          return false;
        }
        var i := 0;
        while i <= |name| - |cond.pattern|
          invariant 0 <= i <= |name| - |cond.pattern| + 1
          invariant forall j | 0 <= j < i :: !OccursAt(name, cond.pattern, j)
        {
          if name[i..i + |cond.pattern|] == cond.pattern {
            assert OccursAt(name, cond.pattern, i);
            return true;
          }
          i := i + 1;
        }
        return false;
      case _ =>
        return false;
    }
  }

  /** Testing a mask with a shifted one bit. */
  lemma BitTest(mask: bv8, d: Weekday)
    ensures mask & (1 << d) != 0 <==> OnDay(mask, d)
  {
    if d == 0 { } else if d == 1 { } else if d == 2 { } else if d == 3 { } else if d == 4 { } else if d == 5 { }
  }

  method TimeCheck(cond: TimeCond, clock: Clock) returns (r: bool)
    ensures r <==> TimeHolds(cond, clock)
    ensures match cond
            case Always => r
            case Period(start, end) => r <==> start <= clock.seconds * 1_000_000 + clock.micros <= end
            case Schedule(days, from, to) =>
              r <==> (days == 0 || OnDay(days, clock.weekday)) && (from == to ||
                      (if from < to then from <= clock.hour < to else clock.hour < to || from <= clock.hour))
            case Interval(seconds) => r <==> clock.seconds % seconds == 0
            case OtherTime => !r
  {
    match cond {
      case Always =>
        return true;
      case Period(start, end) =>
        var now := clock.seconds * 1_000_000 + clock.micros;
        return now >= start && now <= end;
      case Schedule(weekdays, startHour, endHour) =>
        BitTest(weekdays, clock.weekday);
        if weekdays != 0 {
          if weekdays & (1 << clock.weekday) == 0 {
            return false;
          }
        }
        if startHour != endHour {
          if startHour < endHour {
            return clock.hour >= startHour && clock.hour < endHour;
          } else {
            return clock.hour >= startHour || clock.hour < endHour;
          }
        }
        return true;
      case Interval(seconds) =>
        return clock.seconds % seconds == 0;
      case OtherTime =>
        return false;
    }
  }

  method SourceCheck(faceid: nat, nodeId: Option<seq<byte>>, cond: SourceCond) returns (r: bool)
    ensures r <==> SourceHolds(faceid, nodeId, cond)
    ensures r <==> (cond.faceid == 0 || cond.faceid == faceid) && (cond.nodeId == [] || nodeId == Some(cond.nodeId))
  {
    if cond.faceid != 0 && cond.faceid != faceid {
      return false;
    }
    if |cond.nodeId| > 0 {
      if nodeId.None? || |nodeId.value| != |cond.nodeId| {
        return false;
      }
      if nodeId.value != cond.nodeId {
        return false;
      }
    }
    return true;
  }

  method ChunkCheck(chunk: Option<nat>, cond: ChunkCond) returns (r: bool)
    ensures r <==> ChunkHolds(chunk, cond)
    ensures chunk.Some? ==> (r <==> cond.min <= chunk.value && (cond.max == 0 || chunk.value <= cond.max))
    ensures chunk.None? ==> (r <==> cond.min == 0 && cond.max == 0)
  {
    if chunk.None? {
      return cond.min == 0 && cond.max == 0;
    }
    if cond.max > 0 {
      return chunk.value >= cond.min && chunk.value <= cond.max;
    } else {
      return chunk.value >= cond.min;
    }
  }

  /** All conditions of a rule, checked in turn. */
  method Check(c: Conditions, p: Packet, clock: Clock) returns (r: bool)
    ensures r <==> Holds(c, p, clock)
  {
    r := true;
    if OnName in c.kinds {
      r := NamePatternMatch(p.name, c.name);
    }
    if r && OnTime in c.kinds {
      r := TimeCheck(c.time, clock);
    }
    if r && OnSource in c.kinds {
      r := SourceCheck(p.faceid, None, c.source);
    }
    if r && OnChunk in c.kinds {
      r := ChunkCheck(p.chunk, c.chunk);
    }
    if r && OnCustom in c.kinds && c.custom.Some? && !c.custom.value(p.msg, p.payloadLen, p.headerLen) {
      r := false;
    }
  }
}
