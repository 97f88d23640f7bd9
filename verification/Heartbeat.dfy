/**
 Heartbeats (ProtocolMessage.cpp, Peer.cpp; section 7.3.1 of RFC 8175): the interval crosses the
 wire in the configured units and width, in 32-bit arithmetic on both sides, and a peer that keeps
 to it is not timed out.
 */
module Heartbeat {
  import opened Wrappers
  import opened Serialize
  import opened ProtocolConfig
  import opened DataItem
  import opened Transactions

  const TWO_32 := 0x1_0000_0000

  /** How many units make a second; units the program does not know count as seconds. */
  function Divisor(units: Units): (d: u32)
    ensures d == 1 || 1 < d == 2 * (d / 2)
  {
    match units
    case Milliseconds => 1000
    case Microseconds => 1_000_000
    case _ => 1
  }

  /** One past the largest value of the data item, which is 16 or 32 bits wide. */
  function Range(wide: bool): nat {
    if wide then TWO_32 else 0x1_0000
  }

  /** `add_heartbeat_interval`: the value put on the wire for an interval in seconds. */
  function SentInterval(units: Units, wide: bool, seconds: u32): u32 {
    seconds * Divisor(units) % TWO_32 % Range(wide)
  }

  lemma DivisorValues(units: Units)
    ensures Divisor(units) == if units == Milliseconds then 1000 else if units == Microseconds then 1_000_000 else 1
  {
  }

  /** The heartbeat item a message gets; only the two integer types are supported. */
  method AddHeartbeatInterval(units: Units, t: ValueType, seconds: u32) returns (item: Option<Value>)
    ensures t == TU16 ==> item == Some(U16(SentInterval(units, false, seconds)))
    ensures t == TU32 ==> item == Some(U32(SentInterval(units, true, seconds)))
    ensures t != TU16 && t != TU32 ==> item == None
  {
    hide Divisor;
    ghost var scaled := seconds * Divisor(units) % TWO_32;
    DivisorValues(units);
    var interval := seconds;
    if units == Milliseconds {
      interval := interval * 1000 % TWO_32;
    } else if units == Microseconds {
      interval := interval * 1_000_000 % TWO_32;
    }
    assert interval == scaled;
    if t == TU16 {
      item := Some(U16(interval % 0x1_0000));
    } else if t == TU32 {
      item := Some(U32(interval));
    } else {
      item := None;
    }
  }

  /** `store_heartbeat_interval`: seconds from a received value, rounded to nearest. */
  method StoreHeartbeatInterval(units: Units, received: u32) returns (seconds: u32)
    ensures seconds == StoredSeconds(units, received)
  {
    var divisor: u32 := 1;
    if units == Milliseconds {
      divisor := 1000;
    } else if units == Microseconds {
      divisor := 1_000_000;
    }
    seconds := received;
    if divisor > 1 {
      seconds := (seconds + divisor / 2) % TWO_32;
      seconds := seconds / divisor;
    }
  }

  function StoredSeconds(units: Units, received: u32): u32 {
    if Divisor(units) > 1 then (received + Divisor(units) / 2) % TWO_32 / Divisor(units) else received
  }

  /** A received value is rounded to within half a second exactly when adding the half does not wrap. */
  lemma RoundingIsWithinHalfExactly(units: Units, received: u32)
    ensures var d: int := Divisor(units);
            var error: int := StoredSeconds(units, received) * d - received;
            -d <= 2 * error <= d <==> d == 1 || received + d / 2 < TWO_32
  {
    var d := Divisor(units);
    if d > 1 && received + d / 2 >= TWO_32 {
      assert StoredSeconds(units, received) == 0;
    }
  }

  /** The conditions for an interval to survive the trip. */
  predicate Representable(units: Units, wide: bool, seconds: u32) {
    var scaled := seconds * Divisor(units);
    scaled < Range(wide) && (Divisor(units) > 1 ==> scaled + Divisor(units) / 2 < TWO_32)
  }

  /**
   Sender's scaling and receiver's rounding recover an interval exactly when its scaled value
   fits the item and the receiver's addition does not wrap.
   */
  lemma IntervalSurvivesExactly(units: Units, wide: bool, seconds: u32)
    ensures StoredSeconds(units, SentInterval(units, wide, seconds)) == seconds <==> Representable(units, wide, seconds)
  {
    if wide {
      assert seconds * Divisor(units) % TWO_32 % Range(true) == seconds * Divisor(units) % TWO_32;
      ScaledWide(seconds, Divisor(units));
    } else {
      ScaledNarrow(seconds, Divisor(units));
    }
  }

  /**
   In 32-bit milliseconds 4294966 seconds is the largest that survives; 4294967 fits the item but
   arrives as zero, which stands for no heartbeats at all.
   */
  lemma LargestInMilliseconds()
    ensures forall seconds: u32 :: Representable(Milliseconds, true, seconds) <==> seconds <= 4294966
    ensures StoredSeconds(Milliseconds, SentInterval(Milliseconds, true, 4294967)) == 0
  {
  }

  /** Scaling by 1000 or 1000000 and rounding back, without any width. */
  lemma RoundsBack(seconds: u32, d: nat)
    requires d in {1000, 1_000_000}
    ensures (seconds * d + d / 2) / d == seconds
  {
  }

  lemma ScaledWide(seconds: u32, d: nat)
    requires d in {1, 1000, 1_000_000}
    ensures var sent := seconds * d % TWO_32;
            var stored := if d > 1 then (sent + d / 2) % TWO_32 / d else sent;
            stored == seconds <==> seconds * d < TWO_32 && (d > 1 ==> seconds * d + d / 2 < TWO_32)
  {
    if d > 1 {
      RoundsBack(seconds, d);
      var sent := seconds * d % TWO_32;
      if seconds * d >= TWO_32 {
        assert sent + d / 2 < TWO_32 + d / 2;
        assert (sent + d / 2) % TWO_32 < seconds * d;
      }
    }
  }

  lemma ScaledNarrow(seconds: u32, d: nat)
    requires d in {1, 1000, 1_000_000}
    ensures var sent := seconds * d % TWO_32 % 0x1_0000;
            var stored := if d > 1 then (sent + d / 2) % TWO_32 / d else sent;
            stored == seconds <==> seconds * d < 0x1_0000
  {
    if d == 1000 {
      NarrowMilliseconds(seconds);
    } else if d == 1_000_000 {
      NarrowMicroseconds(seconds);
    }
  }

  lemma NarrowMilliseconds(seconds: u32)
    ensures var sent := seconds * 1000 % TWO_32 % 0x1_0000;
            (sent + 500) % TWO_32 / 1000 == seconds <==> seconds * 1000 < 0x1_0000
  {
    var n := seconds * 1000;
    var sent := n % TWO_32 % 0x1_0000;
    NarrowedBy(n);
    if n < 0x1_0000 {
      RoundsBack(seconds, 1000);
    }
  }

  /** What the narrow item drops is nothing, or at least its range. */
  lemma NarrowedBy(n: nat)
    ensures var sent := n % TWO_32 % 0x1_0000;
            sent < 0x1_0000 && if n < 0x1_0000 then sent == n else n >= sent + 0x1_0000
  {
    var r := n % TWO_32;
    assert n == r || n >= r + TWO_32;
    assert r == r % 0x1_0000 || r >= r % 0x1_0000 + 0x1_0000;
  }

  lemma NarrowMicroseconds(seconds: u32)
    ensures var sent := seconds * 1_000_000 % TWO_32 % 0x1_0000;
            (sent + 500_000) % TWO_32 / 1_000_000 == seconds <==> seconds * 1_000_000 < 0x1_0000
  {
    var sent := seconds * 1_000_000 % TWO_32 % 0x1_0000;
    assert (sent + 500_000) % TWO_32 == sent + 500_000;
  }

  // ---- A peer that keeps to its interval is not timed out

  /** The two fields the activity check reads change only when something arrives. */
  lemma StepKeepsReceiveTime(s: Session, p: Params, e: Event)
    ensures Step(s, p, e).lastReceive == if e.Receive? then e.now else s.lastReceive
    ensures Step(s, p, e).intervalSec == if e.Interval? then e.seconds else s.intervalSec
  {
    if e.Timer? && Active(s, p, e.now) {
      RetransmitsKeepReceiveTime(s, p, e.now, e.order);
    }
  }

  lemma {:induction false} RetransmitsKeepReceiveTime(s: Session, p: Params, now: int, order: seq<Mac>)
    ensures var t := CheckForRetransmits(s, p, now, order);
            t.lastReceive == s.lastReceive && t.intervalSec == s.intervalSec
    decreases |order|
  {
    if order != [] && Late(s, p, order[0], now) {
      if s.queues[order[0]][0].sendTries < p.sendTries {
        RetransmitsKeepReceiveTime(SendHead(s, order[0], now), p, now, order[1..]);
      }
    } else if order != [] {
      RetransmitsKeepReceiveTime(s, p, now, order[1..]);
    }
  }

  /** The times at which the peer is heard do not run backwards, and the interval stays as it is. */
  ghost predicate Ordered(start: int, seconds: u32, events: seq<Event>) {
    && (forall k :: 0 <= k < |events| && events[k].Receive? ==> start <= events[k].now)
    && (forall j, k :: 0 <= j < k < |events| && events[j].Receive? && events[k].Receive? ==>
          events[j].now <= events[k].now)
    && (forall k :: 0 <= k < |events| && events[k].Interval? ==> events[k].seconds == seconds)
  }

  /** When the i-th heartbeat is sent. */
  function SentAt(start: int, seconds: u32, i: nat): int {
    start + i * seconds
  }

  /**
   Heartbeats sent every `seconds` after `start` take at most `delay`: by each timer event, all
   that must have arrived have, none earlier than it was sent.
   */
  ghost predicate Punctual(start: int, seconds: u32, delay: nat, events: seq<Event>) {
    && Ordered(start, seconds, events)
    && forall k, i: nat ::
         0 <= k < |events| && events[k].Timer? && SentAt(start, seconds, i) + delay <= events[k].now ==>
         exists j :: 0 <= j < k && events[j].Receive? && SentAt(start, seconds, i) <= events[j].now
  }

  /** The receive times are such that the 32-bit end of the active time does not wrap. */
  ghost predicate Unwrapped(p: Params, seconds: u32, events: seq<Event>) {
    forall k :: 0 <= k < |events| && events[k].Receive? ==>
      events[k].now + seconds * p.heartbeatThreshold < TWO_32
  }

  /** No timer event finds the peer inactive. */
  ghost predicate NeverTimedOut(s: Session, p: Params, events: seq<Event>) {
    forall k :: 0 <= k < |events| && events[k].Timer? ==> Active(Run(s, p, events[..k]), p, events[k].now)
  }

  /** The last receive time is the start, or that of some event, and no earlier than any. */
  lemma {:induction false} LastReceived(s: Session, p: Params, start: int, seconds: u32, events: seq<Event>)
    requires s.lastReceive == start && s.intervalSec == seconds && Ordered(start, seconds, events)
    ensures var t := Run(s, p, events);
            && t.intervalSec == seconds
            && (t.lastReceive == start ||
                exists k :: 0 <= k < |events| && events[k].Receive? && events[k].now == t.lastReceive)
            && start <= t.lastReceive
            && forall k :: 0 <= k < |events| && events[k].Receive? ==> events[k].now <= t.lastReceive
  {
    hide Step;
    if events != [] {
      var front, last := events[..|events| - 1], events[|events| - 1];
      assert Ordered(start, seconds, front);
      LastReceived(s, p, start, seconds, front);
      StepKeepsReceiveTime(Run(s, p, front), p, last);
      assert forall k :: 0 <= k < |front| ==> front[k] == events[k];
    }
  }

  /** Without wrap-around the peer is active until its threshold of intervals after it was last heard. */
  lemma ActiveExactly(s: Session, p: Params, now: int)
    requires 0 < s.intervalSec && 0 <= s.lastReceive
    requires s.lastReceive + s.intervalSec * p.heartbeatThreshold < TWO_32
    ensures Active(s, p, now) <==> now < s.lastReceive + s.intervalSec * p.heartbeatThreshold
  {
    assert s.intervalSec * p.heartbeatThreshold >= 0;
  }

  /** At any time, some heartbeat sent less than an interval and the delay ago must have arrived. */
  lemma LatestDue(start: int, seconds: u32, delay: nat, now: int) returns (i: nat)
    requires seconds > 0 && start + delay <= now
    ensures SentAt(start, seconds, i) + delay <= now < SentAt(start, seconds, i) + delay + seconds
  {
    i := (now - start - delay) / seconds;
  }

  lemma PunctualMeansActive(s: Session, p: Params, start: int, seconds: u32, delay: nat, events: seq<Event>, k: nat)
    requires 0 <= start == s.lastReceive && 0 < seconds == s.intervalSec
    requires start + seconds * p.heartbeatThreshold < TWO_32 && Unwrapped(p, seconds, events)
    requires Punctual(start, seconds, delay, events) && delay + seconds <= seconds * p.heartbeatThreshold
    requires k < |events| && events[k].Timer?
    ensures Active(Run(s, p, events[..k]), p, events[k].now)
  {
    hide Run, Active;
    var front, now := events[..k], events[k].now;
    LastReceived(s, p, start, seconds, front);
    var t := Run(s, p, front);
    ActiveExactly(t, p, now);
    if start + delay <= now {
      var i := LatestDue(start, seconds, delay, now);
      var j :| 0 <= j < k && events[j].Receive? && SentAt(start, seconds, i) <= events[j].now;
      assert front[j] == events[j];
    }
  }

  /**
   A peer that sends a heartbeat every interval is never timed out whatever the delays up to a
   bound, if and only if the bound leaves one interval of the threshold: the interval plus the
   delay may not exceed interval times threshold.
   */
  lemma ToleratedDelayIsExact(s: Session, p: Params, start: int, seconds: u32, delay: nat)
    requires 0 <= start == s.lastReceive && 0 < seconds == s.intervalSec
    requires start + seconds * p.heartbeatThreshold < TWO_32
    ensures delay + seconds <= seconds * p.heartbeatThreshold <==>
            forall events :: Punctual(start, seconds, delay, events) && Unwrapped(p, seconds, events) ==>
              NeverTimedOut(s, p, events)
  {
    if delay + seconds <= seconds * p.heartbeatThreshold {
      forall events: seq<Event> | Punctual(start, seconds, delay, events) && Unwrapped(p, seconds, events)
        ensures NeverTimedOut(s, p, events)
      {
        forall k | 0 <= k < |events| && events[k].Timer?
          ensures Active(Run(s, p, events[..k]), p, events[k].now)
        {
          PunctualMeansActive(s, p, start, seconds, delay, events, k);
        }
      }
    } else {
      LateHeartbeat(s, p, start, seconds, delay);
    }
  }

  /** One heartbeat on time and the next as late as it may be. */
  lemma LateHeartbeat(s: Session, p: Params, start: int, seconds: u32, delay: nat)
    requires 0 <= start == s.lastReceive && 0 < seconds == s.intervalSec
    requires start + seconds * p.heartbeatThreshold < TWO_32
    requires delay + seconds > seconds * p.heartbeatThreshold
    ensures exists events :: Punctual(start, seconds, delay, events) && Unwrapped(p, seconds, events)
                             && !NeverTimedOut(s, p, events)
  {
    hide Run, Active;
    var now := start + seconds * p.heartbeatThreshold;
    var events := [Receive(start), Timer(now, [])];
    OnlyTheFirstIsDue(start, seconds, delay, now);
    assert events[0].Receive? && events[1].Timer?;
    assert Punctual(start, seconds, delay, events);
    assert Ordered(start, seconds, events[..1]);
    LastReceived(s, p, start, seconds, events[..1]);
    ActiveExactly(Run(s, p, events[..1]), p, now);
    assert !NeverTimedOut(s, p, events);
  }

  lemma OnlyTheFirstIsDue(start: int, seconds: u32, delay: nat, now: int)
    requires now < start + delay + seconds
    ensures forall i: nat :: SentAt(start, seconds, i) + delay <= now ==> SentAt(start, seconds, i) == start
  {
    forall i: nat
      ensures i > 0 ==> SentAt(start, seconds, i) >= start + seconds
    {
      if i > 0 {
        assert (i - 1) * seconds >= 0;
      }
    }
  }
}
