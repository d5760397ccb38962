// Hybrid logical clock of packages/log/src/clock.ts.
//
// A timestamp is a pair (wallTime, logical).  The source compares and advances the pair with an
// explicit carry from the 32-bit logical part into the wall time.  Here every operation is tied
// to ONE natural number, Scalar() = wallTime * 2^32 + logical, and an update is shown to be
// nothing but  max(max(last, other) + 1, physical * 2^32)  on that number.
module Clock {
  import opened Wrappers

  const UINT32_MAX: nat := 0xffff_ffff
  const UINT64_MAX: nat := 0xffff_ffff_ffff_ffff
  const LOGICAL_RANGE: nat := 0x1_0000_0000

  type uint32 = n: nat | n <= 0xffff_ffff

  datatype Timestamp = Timestamp(wallTime: nat, logical: uint32) {
    function Scalar(): nat { wallTime * LOGICAL_RANGE + logical }

    // Timestamp.compare: wall time first, then the logical counter.
    function Compare(other: Timestamp): (order: int)
      ensures order == 1 <==> Scalar() > other.Scalar()
      ensures order == -1 <==> Scalar() < other.Scalar()
      ensures order == 0 <==> this == other
    {
      if wallTime > other.wallTime then 1
      else if wallTime < other.wallTime then -1
      else if logical > other.logical then 1
      else if logical < other.logical then -1
      else 0
    }

    // Timestamp.bigger
    static function Bigger(a: Timestamp, b: Timestamp): (big: Timestamp)
      ensures big in {a, b} && big.Scalar() == Max(a.Scalar(), b.Scalar())
    {
      if a.Compare(b) == -1 then b else a
    }

    predicate Before(other: Timestamp) { Scalar() < other.Scalar() }
  }

  // The inverse of Scalar().
  function FromScalar(n: nat): (t: Timestamp)
    ensures t.Scalar() == n
  {
    Timestamp(n / LOGICAL_RANGE, n % LOGICAL_RANGE)
  }

  lemma ScalarInjective(a: Timestamp, b: Timestamp)
    requires a.Scalar() == b.Scalar()
    ensures a == b
  {
    assert a.Compare(b) == 0;
  }

  datatype ClockError =
    | ForwardJump(timejump: int, tolerance: int)
    | ClockOffset(offset: int, maxOffset: int)
    | WallTimeOverflow(time: nat, maxTime: nat)

  // A limit that is not positive is switched off.
  datatype Limits = Limits(maxOffset: int, wallTimeUpperBound: int, toleratedForwardClockJump: int) {
    function MaxWallTime(): nat { if wallTimeUpperBound > 0 then wallTimeUpperBound else UINT64_MAX }

    predicate JumpsTooFar(offset: int) {
      toleratedForwardClockJump > 0 && -offset > toleratedForwardClockJump
    }

    predicate TooFarAhead(offset: int) { maxOffset > 0 && offset > maxOffset }
  }

  // ----- The reference clock: one unbounded counter -----

  function Tick(last: nat, other: nat, physical: nat): nat {
    Max(Max(last, other) + 1, physical * LOGICAL_RANGE)
  }

  // How far the bigger of the two inputs is ahead of the physical reading.
  function Offset(last: Timestamp, other: Timestamp, physical: nat): int {
    Max(last.Scalar(), other.Scalar()) / LOGICAL_RANGE - physical
  }

  predicate Accepts(limits: Limits, last: Timestamp, other: Timestamp, physical: nat) {
    && !limits.JumpsTooFar(Offset(last, other, physical))
    && !limits.TooFarAhead(Offset(last, other, physical))
    && Tick(last.Scalar(), other.Scalar(), physical) / LOGICAL_RANGE <= limits.MaxWallTime()
  }

  // The limit that a refused update names is the first one it hits.
  predicate Explains(error: ClockError, limits: Limits, last: Timestamp, other: Timestamp, physical: nat) {
    var offset := Offset(last, other, physical);
    match error
    case ForwardJump(jump, tolerated) =>
      limits.JumpsTooFar(offset) && jump == -offset && tolerated == limits.toleratedForwardClockJump
    case ClockOffset(ahead, limit) =>
      !limits.JumpsTooFar(offset) && limits.TooFarAhead(offset) && ahead == offset && limit == limits.maxOffset
    case WallTimeOverflow(time, maxTime) =>
      && !limits.JumpsTooFar(offset) && !limits.TooFarAhead(offset)
      && time == Tick(last.Scalar(), other.Scalar(), physical) / LOGICAL_RANGE && time > maxTime == limits.MaxWallTime()
  }

  // An error names a limit that is switched on, and a value beyond it.
  predicate NamesLimit(limits: Limits, error: ClockError) {
    match error
    case ForwardJump(jump, tolerated) => tolerated == limits.toleratedForwardClockJump > 0 && jump > tolerated
    case ClockOffset(ahead, limit) => limit == limits.maxOffset > 0 && ahead > limit
    case WallTimeOverflow(time, maxTime) => maxTime == limits.MaxWallTime() && time > maxTime
  }

  // The timestamp an accepted update moves to.
  function Advance(last: Timestamp, other: Timestamp, physical: nat): Timestamp {
    FromScalar(Tick(last.Scalar(), other.Scalar(), physical))
  }

  class HLC {
    const limits: Limits
    var last: Timestamp

    constructor (limits: Limits, physical: nat, initial: Option<Timestamp>)
      ensures this.limits == limits
      ensures last.Scalar() ==
              if initial.Some? then Max(initial.value.Scalar(), physical * LOGICAL_RANGE) else physical * LOGICAL_RANGE
    {
      this.limits := limits;
      var reading := Timestamp(physical, 0);
      last := if initial.Some? then Timestamp.Bigger(initial.value, reading) else reading;
    }

    method ValidateOffset(offset: int) returns (e: Option<ClockError>)
      ensures e.None? <==> !limits.JumpsTooFar(offset) && !limits.TooFarAhead(offset)
      ensures e.Some? ==> e.value == if limits.JumpsTooFar(offset)
                                     then ForwardJump(-offset, limits.toleratedForwardClockJump)
                                     else ClockOffset(offset, limits.maxOffset)
    {
      if limits.toleratedForwardClockJump > 0 && -offset > limits.toleratedForwardClockJump {
        return Some(ForwardJump(-offset, limits.toleratedForwardClockJump));
      }
      if limits.maxOffset > 0 && offset > limits.maxOffset {
        return Some(ClockOffset(offset, limits.maxOffset));
      }
      return None;
    }

    // `physical` is what the wall clock reads during the call.
    method Update(other: Timestamp, physical: nat) returns (r: Result<Timestamp, ClockError>)
      modifies this
      ensures r.Ok? <==> Accepts(limits, old(last), other, physical)
      ensures r.Ok? ==> r.value == last && last == Advance(old(last), other, physical)
      ensures r.Err? ==> last == old(last)
      ensures r.Err? ==> Explains(r.error, limits, old(last), other, physical)
    {
      var bigger := Timestamp.Bigger(other, last);
      var wallTime := physical;
      var offset := bigger.wallTime - wallTime;
      assert bigger.wallTime == bigger.Scalar() / LOGICAL_RANGE;
      var invalid := ValidateOffset(offset);
      if invalid.Some? {
        return Err(invalid.value);
      }
      var logical: nat;
      if offset < 0 {
        logical := 0;
      } else {
        wallTime := bigger.wallTime;
        logical := bigger.logical + 1;
        if logical > UINT32_MAX {
          wallTime := wallTime + 1;
          logical := 0;
        }
      }
      var next := Timestamp(wallTime, logical);
      assert next.Scalar() == Tick(last.Scalar(), other.Scalar(), physical);
      ScalarInjective(next, Advance(last, other, physical));
      var maxWallTime := if limits.wallTimeUpperBound > 0 then limits.wallTimeUpperBound else UINT64_MAX;
      if wallTime > maxWallTime {
        return Err(WallTimeOverflow(wallTime, maxWallTime));
      }
      last := next;
      return Ok(last);
    }

    method Now(physical: nat) returns (r: Result<Timestamp, ClockError>)
      modifies this
      ensures r.Ok? <==> Accepts(limits, old(last), old(last), physical)
      ensures r.Ok? ==> r.value == last && last == Advance(old(last), old(last), physical)
      ensures r.Err? ==> last == old(last) && Explains(r.error, limits, last, last, physical)
    {
      r := Update(last, physical);
    }
  }

  // ----- One update -----

  // The logical part has 32 bits and carries into the wall time; the wall time has 64 bits.
  lemma Widths(limits: Limits, wall: nat, physical: nat)
    requires physical <= wall && limits == Limits(0, 0, 0)
    ensures var last := Timestamp(wall, 4294967295);
            && Advance(last, last, physical) == Timestamp(wall + 1, 0)
            && Advance(last.(logical := 4294967294), last.(logical := 4294967294), physical) == last
            && (Accepts(limits, last, last, physical) <==> wall < 18446744073709551615)
  {
    var last := Timestamp(wall, 4294967295);
    assert last.Scalar() + 1 == Timestamp(wall + 1, 0).Scalar();
    assert last.(logical := 4294967294).Scalar() + 1 == last.Scalar();
  }

  // The result lies strictly above both inputs; it is either the successor of the bigger one
  // (also across overflow of the logical part) or the bare physical reading.
  lemma AdvanceIsAboveBoth(last: Timestamp, other: Timestamp, physical: nat)
    ensures var next := Advance(last, other, physical);
            && last.Before(next) && other.Before(next)
            && (next == FromScalar(Max(last.Scalar(), other.Scalar()) + 1) || next == Timestamp(physical, 0))
  {
    var next := Advance(last, other, physical);
    if next.Scalar() == physical * LOGICAL_RANGE {
      ScalarInjective(next, Timestamp(physical, 0));
    }
  }

  // With an offset limit, no accepted update leaves the wall time more than the limit plus one
  // carry ahead of the physical clock, and a rejected one would have started above the limit.
  lemma AcceptedStaysNearPhysical(limits: Limits, last: Timestamp, other: Timestamp, physical: nat)
    requires limits.maxOffset > 0
    ensures Accepts(limits, last, other, physical) ==>
              Advance(last, other, physical).wallTime <= physical + limits.maxOffset + 1
  {
  }

  // The physical readings that an update accepts form a window around the bigger wall time, cut off
  // where the resulting wall time would not fit any more.
  lemma AcceptedReadings(limits: Limits, last: Timestamp, other: Timestamp, physical: nat)
    ensures var bigger := Timestamp.Bigger(other, last);
            var carried := bigger.wallTime + if bigger.logical as nat == UINT32_MAX then 1 else 0;
            Accepts(limits, last, other, physical) <==>
              && (limits.maxOffset > 0 ==> bigger.wallTime - limits.maxOffset <= physical)
              && (limits.toleratedForwardClockJump > 0 ==>
                    physical <= bigger.wallTime + limits.toleratedForwardClockJump)
              && (if physical > bigger.wallTime then physical else carried)
                 <= if limits.wallTimeUpperBound > 0 then limits.wallTimeUpperBound else 18446744073709551615
  {
    var bigger := Timestamp.Bigger(other, last);
    assert bigger.Scalar() == Max(last.Scalar(), other.Scalar());
    assert bigger.wallTime == bigger.Scalar() / LOGICAL_RANGE;
  }

  // So the wall time does pass the limit, by that one carry, exactly if the bigger timestamp is at
  // the limit with its logical part used up.
  lemma CarryPassesLimitExactly(limits: Limits, last: Timestamp, other: Timestamp, physical: nat)
    requires limits.maxOffset > 0 && Accepts(limits, last, other, physical)
    ensures Advance(last, other, physical).wallTime > physical + limits.maxOffset <==>
              Max(last.Scalar(), other.Scalar()) == (physical + limits.maxOffset) * LOGICAL_RANGE + UINT32_MAX
  {
    var next := Advance(last, other, physical);
    assert next.wallTime == next.Scalar() / LOGICAL_RANGE;
  }

  // Such timestamps exist.
  lemma CarryExceedsOffsetLimit()
    ensures exists limits: Limits, last: Timestamp, other: Timestamp, physical: nat ::
              && limits == Limits(1, 0, 0)
              && Accepts(limits, last, other, physical)
              && Advance(last, other, physical).wallTime == physical + limits.maxOffset + 1
  {
    var limits, last, other := Limits(1, 0, 0), Timestamp(0, 0), Timestamp(6, 0xffff_ffff);
    assert Advance(last, other, 5).Scalar() == Timestamp(7, 0).Scalar();
    ScalarInjective(Advance(last, other, 5), Timestamp(7, 0));
    assert Accepts(limits, last, other, 5);
  }

  // ----- Whole runs -----

  // None stands for now(), which feeds the clock its own last timestamp.
  datatype Event = Event(received: Option<Timestamp>, physical: nat) {
    function Input(last: Timestamp): Timestamp { if received.Some? then received.value else last }
  }

  function Step(limits: Limits, last: Timestamp, e: Event): Timestamp {
    if Accepts(limits, last, e.Input(last), e.physical) then Advance(last, e.Input(last), e.physical) else last
  }

  function Run(limits: Limits, start: Timestamp, events: seq<Event>): Timestamp {
    if events == [] then start
    else Step(limits, Run(limits, start, events[..|events| - 1]), events[|events| - 1])
  }

  // An upper bound on everything a run was fed with.
  predicate Bounds(high: nat, start: Timestamp, events: seq<Event>) {
    && start.Scalar() <= high
    && forall i :: 0 <= i < |events| ==>
         && events[i].physical * LOGICAL_RANGE <= high
         && (events[i].received.Some? ==> events[i].received.value.Scalar() <= high)
  }

  // A clock never runs ahead of its inputs by more than the number of updates.
  lemma {:induction false} RunStaysBounded(limits: Limits, start: Timestamp, events: seq<Event>, high: nat)
    requires Bounds(high, start, events)
    ensures Run(limits, start, events).Scalar() <= high + |events|
  {
    if events != [] {
      RunStaysBounded(limits, start, events[..|events| - 1], high);
    }
  }

  // Along a run the clock only moves forward.
  lemma {:induction false} RunIsMonotone(limits: Limits, start: Timestamp, events: seq<Event>, k: nat)
    requires k <= |events|
    ensures Run(limits, start, events[..k]).Scalar() <= Run(limits, start, events).Scalar()
  {
    if k == |events| {
      assert events[..k] == events;
    } else {
      var shorter := events[..|events| - 1];
      RunIsMonotone(limits, start, shorter, k);
      assert shorter[..k] == events[..k];
      var last, e := Run(limits, start, shorter), events[|events| - 1];
      AdvanceIsAboveBoth(last, e.Input(last), e.physical);
    }
  }

  // After an accepted event, the clock stays strictly above the timestamp it received.
  lemma AcceptedInputStaysBelow(limits: Limits, start: Timestamp, events: seq<Event>, k: nat)
    requires k < |events|
    requires var last := Run(limits, start, events[..k]);
             Accepts(limits, last, events[k].Input(last), events[k].physical)
    ensures var last := Run(limits, start, events[..k]);
            events[k].Input(last).Before(Run(limits, start, events))
  {
    var last := Run(limits, start, events[..k]);
    AdvanceIsAboveBoth(last, events[k].Input(last), events[k].physical);
    assert events[..k + 1][..k] == events[..k];
    RunIsMonotone(limits, start, events, k + 1);
  }
}
