// Replay timing: how recorded gaps become waits, over exact time.
module Timing {
  import opened Wrappers

  datatype ReplayMode = Story | Faithful

  /** `ReplaySpeed` refuses every other factor. */
  type Speed = x: real | x > 0.0 witness 1.0

  const DEFAULT_MAX_GAP := 5.0

  function AtLeastZero(x: real): real { if x < 0.0 then 0.0 else x }

  function Lesser(x: real, y: real): real { if y < x then y else x }

  function Scale(seconds: real, speed: Speed): real { seconds / speed }

  datatype GapPolicy = GapPolicy(maxGap: Option<real>, preserveExact: bool) {
    function Apply(gap: real): real {
      var g := AtLeastZero(gap);
      if !preserveExact && maxGap.Some? then Lesser(g, maxGap.value) else g
    }
  }

  function PolicyOf(mode: ReplayMode): GapPolicy {
    if mode == Faithful then GapPolicy(None, true) else GapPolicy(Some(DEFAULT_MAX_GAP), false)
  }

  /** The wait before packet i when recorded times become a schedule: shaped first, then scaled. */
  function Planned(times: seq<real>, mode: ReplayMode, speed: Speed): seq<real> {
    seq(|times|, i requires 0 <= i < |times| =>
      if i == 0 then 0.0 else Scale(PolicyOf(mode).Apply(times[i] - times[i - 1]), speed))
  }

  method BuildSchedule(times: seq<real>, mode: ReplayMode, speed: Speed) returns (schedule: seq<real>)
    ensures schedule == Planned(times, mode, speed)
  {
    var policy := PolicyOf(mode);
    schedule := [];
    var previous: Option<real> := None;
    for i := 0 to |times|
      invariant schedule == Planned(times, mode, speed)[..i]
      invariant previous == if i == 0 then None else Some(times[i - 1])
    {
      if previous.None? {
        schedule := schedule + [0.0];
      } else {
        schedule := schedule + [Scale(policy.Apply(times[i] - previous.value), speed)];
      }
      previous := Some(times[i]);
    }
  }

  /** The wait a running replay makes: scaled first, then capped; one that is not positive is no wait. */
  function WaitFor(gap: real, cap: Option<real>, speed: Speed): real {
    var scaled := Scale(AtLeastZero(gap), speed);
    AtLeastZero(if cap.Some? then Lesser(scaled, cap.value) else scaled)
  }

  function Waits(times: seq<real>, cap: Option<real>, speed: Speed): seq<real> {
    seq(|times|, i requires 0 <= i < |times| => if i == 0 then 0.0 else WaitFor(times[i] - times[i - 1], cap, speed))
  }

  function Total(waits: seq<real>): real {
    if waits == [] then 0.0 else Total(waits[..|waits| - 1]) + waits[|waits| - 1]
  }

  // ------------------------------------------------------------ the virtual clock

  class VirtualClock {
    var now: real
    var slept: real

    constructor (start: real)
      ensures now == start && slept == 0.0
    {
      now, slept := start, 0.0;
    }

    method Sleep(seconds: real)
      modifies this
      ensures now == old(now) + AtLeastZero(seconds) && slept == old(slept) + AtLeastZero(seconds)
    {
      if seconds > 0.0 {
        now := now + seconds;
        slept := slept + seconds;
      }
    }
  }

  /** Waits out a whole schedule. */
  method Play(times: seq<real>, clock: VirtualClock, mode: ReplayMode, speed: Speed) returns (waits: seq<real>)
    modifies clock
    ensures waits == Planned(times, mode, speed)
    ensures clock.now == old(clock.now) + Total(waits) && clock.slept == old(clock.slept) + Total(waits)
  {
    waits := BuildSchedule(times, mode, speed);
    for i := 0 to |waits|
      invariant clock.now == old(clock.now) + Total(waits[..i]) && clock.slept == old(clock.slept) + Total(waits[..i])
    {
      ScheduledWaitsAreWaits(times, mode, speed, i);
      if waits[i] > 0.0 {
        clock.Sleep(waits[i]);
      }
      assert waits[..i + 1][..i] == waits[..i];
    }
    assert waits[..|waits|] == waits;
  }

  lemma ScaleKeepsOrder(x: real, y: real, speed: Speed)
    requires x <= y
    ensures Scale(x, speed) <= Scale(y, speed) && (x >= 0.0 ==> Scale(x, speed) >= 0.0)
  {
  }

  lemma ScheduledWaitsAreWaits(times: seq<real>, mode: ReplayMode, speed: Speed, i: nat)
    requires i < |times|
    ensures Planned(times, mode, speed)[i] >= 0.0
  {
    if i > 0 {
      ScaleKeepsOrder(0.0, PolicyOf(mode).Apply(times[i] - times[i - 1]), speed);
    }
  }

  // ------------------------------------------------------------ laws

  predicate Ascending(times: seq<real>) {
    forall i, j :: 0 <= i < j < |times| ==> times[i] <= times[j]
  }

  /** A faithful replay waits exactly what the schedule says, whatever the recorded times. */
  lemma FaithfulFollowsSchedule(times: seq<real>, speed: Speed)
    ensures Waits(times, None, speed) == Planned(times, Faithful, speed)
  {
    forall i | 0 < i < |times| ensures Waits(times, None, speed)[i] == Planned(times, Faithful, speed)[i] {
      ScaleKeepsOrder(0.0, AtLeastZero(times[i] - times[i - 1]), speed);
    }
  }

  /** One more recorded time is one more wait. */
  lemma OneMoreWait(times: seq<real>, cap: Option<real>, speed: Speed)
    requires times != []
    ensures var n := |times| - 1;
            Total(Waits(times, cap, speed)) == Total(Waits(times[..n], cap, speed))
            + if n == 0 then 0.0 else WaitFor(times[n] - times[n - 1], cap, speed)
  {
    hide *;
    FirstWaits(times, cap, speed);
    TotalSplits(Waits(times, cap, speed));
  }

  lemma FirstWaits(times: seq<real>, cap: Option<real>, speed: Speed)
    requires times != []
    ensures var n, waits := |times| - 1, Waits(times, cap, speed);
            && |waits| == |times| && waits[..n] == Waits(times[..n], cap, speed)
            && waits[n] == if n == 0 then 0.0 else WaitFor(times[n] - times[n - 1], cap, speed)
  {
    hide WaitFor;
  }

  lemma TotalSplits(waits: seq<real>)
    requires waits != []
    ensures Total(waits) == Total(waits[..|waits| - 1]) + waits[|waits| - 1]
  {
  }

  lemma {:induction false} FaithfulSums(times: seq<real>, speed: Speed)
    requires times != [] && Ascending(times)
    ensures Total(Waits(times, None, speed)) == Scale(times[|times| - 1] - times[0], speed)
  {
    hide Scale, Waits, WaitFor;
    var n := |times| - 1;
    OneMoreWait(times, None, speed);
    if n == 0 {
      NoWaits(times[..0], None, speed);
      NothingScales(speed);
    } else {
      FaithfulSums(times[..n], speed);
      FaithfulWait(times[n] - times[n - 1], speed);
      ScaleAdds(times[n - 1] - times[0], times[n] - times[n - 1], speed);
    }
  }

  /** Faithful waits telescope: over any recording they add up to its length over the speed. */
  lemma FaithfulTelescopes(times: seq<real>, speed: Speed)
    requires times != [] && Ascending(times)
    ensures Total(Waits(times, None, speed)) == (times[|times| - 1] - times[0]) / speed
  {
    FaithfulSums(times, speed);
    hide Total, Waits;
  }

  lemma NothingScales(speed: Speed)
    ensures Scale(0.0, speed) == 0.0
  {
  }

  lemma NoWaits(times: seq<real>, cap: Option<real>, speed: Speed)
    requires times == []
    ensures Total(Waits(times, cap, speed)) == 0.0
  {
  }

  lemma FaithfulWait(gap: real, speed: Speed)
    requires gap >= 0.0
    ensures WaitFor(gap, None, speed) == Scale(gap, speed)
  {
    ScaleKeepsOrder(0.0, gap, speed);
  }

  lemma ScaleAdds(x: real, y: real, speed: Speed)
    ensures Scale(x + y, speed) == Scale(x, speed) + Scale(y, speed)
  {
  }

  /** What a story replay waits for a gap: the scaled gap up to the cap, and never less than nothing. */
  predicate IsStoryWait(wait: real, gap: real, cap: real, speed: Speed) {
    if gap <= 0.0 || cap <= 0.0 then wait == 0.0
    else if gap / speed <= cap then wait == gap / speed
    else wait == cap
  }

  /**
    * Every story wait is the scaled gap when that is at most the cap and the cap when it is more, and story
    * waits never add up to more than the faithful ones.
    */
  lemma {:induction false} StoryIsShorter(times: seq<real>, cap: real, speed: Speed)
    ensures forall i :: 0 < i < |times| ==>
                          IsStoryWait(Waits(times, Some(cap), speed)[i], times[i] - times[i - 1], cap, speed)
    ensures times != [] ==> Waits(times, Some(cap), speed)[0] == 0.0
    ensures 0.0 <= Total(Waits(times, Some(cap), speed)) <= Total(Waits(times, None, speed))
  {
    StoryWaits(times, cap, speed);
    hide WaitFor, Scale, Waits, Total, IsStoryWait;
    if times == [] {
      NoWaits(times, Some(cap), speed);
      NoWaits(times, None, speed);
    } else {
      var n := |times| - 1;
      StoryIsShorter(times[..n], cap, speed);
      OneMoreWait(times, None, speed);
      OneMoreWait(times, Some(cap), speed);
      if n > 0 {
        CappedWait(times[n] - times[n - 1], cap, speed);
      }
    }
  }

  lemma StoryWaits(times: seq<real>, cap: real, speed: Speed)
    ensures forall i :: 0 < i < |times| ==>
                          IsStoryWait(Waits(times, Some(cap), speed)[i], times[i] - times[i - 1], cap, speed)
    ensures times != [] ==> Waits(times, Some(cap), speed)[0] == 0.0
  {
    hide WaitFor, IsStoryWait;
    forall i | 0 < i < |times|
      ensures IsStoryWait(Waits(times, Some(cap), speed)[i], times[i] - times[i - 1], cap, speed)
    {
      StoryWait(times[i] - times[i - 1], cap, speed);
    }
  }

  lemma StoryWait(gap: real, cap: real, speed: Speed)
    ensures IsStoryWait(WaitFor(gap, Some(cap), speed), gap, cap, speed)
  {
    ScaleKeepsOrder(0.0, AtLeastZero(gap), speed);
  }

  lemma CappedWait(gap: real, cap: real, speed: Speed)
    ensures 0.0 <= WaitFor(gap, Some(cap), speed) <= AtLeastZero(cap)
    ensures WaitFor(gap, Some(cap), speed) <= WaitFor(gap, None, speed)
  {
    ScaleKeepsOrder(0.0, AtLeastZero(gap), speed);
  }

  /**
    * A running story replay caps after scaling, a planned one before. They agree on every
    * recording exactly when the cap is the planner's cap as it looks after scaling.
    */
  lemma StoryFollowsScheduleIff(cap: real, speed: Speed)
    ensures (forall times :: Waits(times, Some(cap), speed) == Planned(times, Story, speed))
       <==> cap == Scale(DEFAULT_MAX_GAP, speed)
  {
    if cap == Scale(DEFAULT_MAX_GAP, speed) {
      forall times ensures Waits(times, Some(cap), speed) == Planned(times, Story, speed) {
        forall i | 0 < i < |times| ensures Waits(times, Some(cap), speed)[i] == Planned(times, Story, speed)[i] {
          CapsAgree(AtLeastZero(times[i] - times[i - 1]), speed);
        }
      }
    } else {
      StoryDiffers(cap, speed);
    }
  }

  lemma CapsAgree(gap: real, speed: Speed)
    requires gap >= 0.0
    ensures WaitFor(gap, Some(Scale(DEFAULT_MAX_GAP, speed)), speed) == Scale(Lesser(gap, DEFAULT_MAX_GAP), speed)
  {
    if gap <= DEFAULT_MAX_GAP {
      ScaleKeepsOrder(gap, DEFAULT_MAX_GAP, speed);
    } else {
      ScaleKeepsOrder(DEFAULT_MAX_GAP, gap, speed);
    }
  }

  /** A gap long enough for both caps shows the difference. */
  lemma StoryDiffers(cap: real, speed: Speed)
    requires cap != Scale(DEFAULT_MAX_GAP, speed)
    ensures exists times :: Waits(times, Some(cap), speed) != Planned(times, Story, speed)
  {
    var gap := DEFAULT_MAX_GAP + AtLeastZero(cap) * speed;
    var times := [0.0, gap];
    assert gap >= DEFAULT_MAX_GAP;
    ScaleAdds(DEFAULT_MAX_GAP, AtLeastZero(cap) * speed, speed);
    assert Scale(AtLeastZero(cap) * speed, speed) == AtLeastZero(cap);
    assert Scale(DEFAULT_MAX_GAP, speed) > 0.0;
    assert Waits(times, Some(cap), speed)[1] == AtLeastZero(cap);
    assert Planned(times, Story, speed)[1] == Scale(DEFAULT_MAX_GAP, speed);
  }
}
