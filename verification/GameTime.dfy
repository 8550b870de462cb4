/** The game clock: a fixed or variable time step, and a rolling frame counter.

    Time is counted in seconds and modelled by exact reals.  A `Clock` is the value
    of all the fields; `GameTime` is the object whose methods update them in place,
    each proved against the value-level step of the same name. */
module Chrono {

  const MAX_DELTA: real := 60000.0
  const SNAP: real := 0.0004

  datatype Clock = Clock(
    lastTime: real,
    elapsedSecs: real,
    totalSecs: real,
    leftOver: real,
    frameCount: nat,
    fps: nat,
    framesThisSec: nat,
    secondsCounter: real,
    fixedStep: bool,
    target: real)

  // ---------------------------------------------------------------- arithmetic

  /** The length of `n` steps of length `t`. */
  function Steps(n: nat, t: real): real {
    if n == 0 then 0.0 else Steps(n - 1, t) + t
  }

  lemma {:induction false} StepsIsProduct(n: nat, t: real)
    ensures Steps(n, t) == n as real * t
  {
    if n > 0 {
      StepsIsProduct(n - 1, t);
      assert n as real * t == (n - 1) as real * t + t;
    }
  }

  lemma {:induction false} StepsAdd(k: nat, m: nat, t: real)
    ensures Steps(k + m, t) == Steps(k, t) + Steps(m, t)
  {
    if m > 0 {
      StepsAdd(k, m - 1, t);
    }
  }

  lemma {:induction false} StepsMonotone(k: nat, m: nat, t: real)
    requires k <= m && t >= 0.0
    ensures Steps(k, t) <= Steps(m, t)
  {
    if k < m {
      StepsMonotone(k, m - 1, t);
    }
  }

  /** The number of whole steps of length `t` in `x`. */
  ghost function Whole(x: real, t: real): (n: nat)
    requires x >= 0.0 && t > 0.0
    ensures Steps(n, t) <= x < Steps(n, t) + t
  {
    QuotientBounds(x, t);
    var n: nat :| Steps(n, t) <= x < Steps(n, t) + t;
    n
  }

  lemma QuotientBounds(x: real, t: real)
    requires x >= 0.0 && t > 0.0
    ensures var n := (x / t).Floor; n >= 0 && Steps(n, t) <= x < Steps(n, t) + t
  {
    var q := x / t;
    assert q >= 0.0;
    assert q * t == x;
    FloorBounds(q, t);
  }

  lemma FloorBounds(q: real, t: real)
    requires q >= 0.0 && t > 0.0
    ensures Steps(q.Floor, t) <= q * t < Steps(q.Floor, t) + t
  {
    StepsBelow(q.Floor, q, t);
    StepsAbove(q.Floor + 1, q, t);
  }

  lemma {:induction false} StepsBelow(n: nat, r: real, t: real)
    requires n as real <= r && t > 0.0
    ensures Steps(n, t) <= r * t
  {
    if n == 0 {
      Positive(r, t);
    } else {
      StepsBelow(n - 1, r - 1.0, t);
      OneLess(r, t);
    }
  }

  lemma {:induction false} StepsAbove(n: nat, r: real, t: real)
    requires r < n as real && t > 0.0
    ensures r * t < Steps(n, t)
  {
    if n == 0 {
      Positive(-r, t);
    } else {
      StepsAbove(n - 1, r - 1.0, t);
      OneLess(r, t);
    }
  }

  lemma Positive(f: real, t: real)
    requires f >= 0.0 && t > 0.0
    ensures f * t >= 0.0 && (f > 0.0 ==> f * t > 0.0)
  {
  }

  lemma OneLess(r: real, t: real)
    ensures (r - 1.0) * t == r * t - t
  {
  }

  /** The bounds that `Whole` promises determine it. */
  lemma WholeUnique(x: real, t: real, n: nat)
    requires x >= 0.0 && t > 0.0
    requires Steps(n, t) <= x < Steps(n, t) + t
    ensures Whole(x, t) == n
  {
    var m := Whole(x, t);
    if m < n {
      StepsMonotone(m + 1, n, t);
    } else if n < m {
      StepsMonotone(n + 1, m, t);
    }
  }

  lemma WholeIsFloor(x: real, t: real)
    requires x >= 0.0 && t > 0.0
    ensures Whole(x, t) == (x / t).Floor
  {
    QuotientBounds(x, t);
    WholeUnique(x, t, (x / t).Floor);
  }

  /** Taking the whole steps of `x` first and counting the rest later gives the same count. */
  lemma WholeSplit(x: real, y: real, t: real)
    requires x >= 0.0 && y >= 0.0 && t > 0.0
    ensures Whole(x + y, t) == Whole(x, t) + Whole(x - Steps(Whole(x, t), t) + y, t)
  {
    var k := Whole(x, t);
    var m := Whole(x - Steps(k, t) + y, t);
    StepsAdd(k, m, t);
    WholeUnique(x + y, t, k + m);
  }

  function Fraction(x: real): (r: real)
    ensures 0.0 <= r < 1.0
  {
    x - x.Floor as real
  }

  lemma FractionAdd(x: real, y: real)
    ensures Fraction(Fraction(x) + y) == Fraction(x + y)
  {
    assert x + y == (Fraction(x) + y) + x.Floor as real;
    assert (x + y).Floor == (Fraction(x) + y).Floor + x.Floor;
  }

  // ---------------------------------------------------------------- one step

  /** Time since the last query; the monotonic clock never reports a negative span. */
  function Raw(c: Clock, now: real): (d: real)
    ensures d >= 0.0
  {
    if now > c.lastTime then now - c.lastTime else 0.0
  }

  function Clamped(d: real): real {
    if d > MAX_DELTA then MAX_DELTA else d
  }

  function Abs(x: real): real {
    if x < 0.0 then -x else x
  }

  /** The delta the accumulator really receives: clamped, and in fixed mode snapped to
      the target when it is within the tolerance. */
  function Effective(c: Clock, now: real): real {
    var d := Clamped(Raw(c, now));
    if c.fixedStep && Abs(d - c.target) < SNAP then c.target else d
  }

  /** What holds of every clock a program can build. */
  ghost predicate Good(c: Clock) {
    c.leftOver >= 0.0 && 0.0 <= c.secondsCounter < 1.0
  }

  /** In fixed mode the inner loop ends only for a positive target. */
  predicate CanTick(c: Clock) {
    c.fixedStep ==> c.target > 0.0
  }

  /** The number of callbacks one tick makes. */
  ghost function Fired(c: Clock, now: real): nat
    requires Good(c) && CanTick(c)
  {
    if c.fixedStep then Whole(c.leftOver + Effective(c, now), c.target) else 1
  }

  /** The frame-rate bookkeeping that ends every tick. */
  function Rolled(c: Clock, fired: nat): Clock {
    var frames := c.framesThisSec + fired;
    if c.secondsCounter >= 1.0 then
      c.(fps := frames, framesThisSec := 0, secondsCounter := Fraction(c.secondsCounter))
    else
      c.(framesThisSec := frames)
  }

  ghost function Ticked(c: Clock, now: real): (c': Clock)
    requires Good(c) && CanTick(c)
    ensures Good(c')
  {
    var n := Fired(c, now);
    var e := Effective(c, now);
    var stepped :=
      if c.fixedStep then
        c.(elapsedSecs := if n > 0 then c.target else c.elapsedSecs,
           totalSecs := c.totalSecs + Steps(n, c.target),
           leftOver := c.leftOver + e - Steps(n, c.target))
      else
        c.(elapsedSecs := e, totalSecs := c.totalSecs + e, leftOver := 0.0);
    Rolled(stepped.(lastTime := now, frameCount := c.frameCount + n,
                    secondsCounter := c.secondsCounter + Raw(c, now)), n)
  }

  function Restarted(c: Clock, now: real): Clock {
    c.(lastTime := now, leftOver := 0.0, fps := 0, framesThisSec := 0, secondsCounter := 0.0)
  }

  class GameTime {
    var lastTime: real
    var elapsedSecs: real
    var totalSecs: real
    var leftOver: real
    var frameCount: nat
    var fps: nat
    var framesThisSec: nat
    var secondsCounter: real
    var fixedStep: bool
    var target: real

    function View(): Clock
      reads this
    {
      Clock(lastTime, elapsedSecs, totalSecs, leftOver, frameCount, fps, framesThisSec,
            secondsCounter, fixedStep, target)
    }

    constructor (now: real)
      ensures View() == Clock(now, 0.0, 0.0, 0.0, 0, 0, 0, 0.0, false, 1.0 / 60.0)
      ensures Good(View()) && CanTick(View())
    {
      lastTime, elapsedSecs, totalSecs, leftOver := now, 0.0, 0.0, 0.0;
      frameCount, fps, framesThisSec, secondsCounter := 0, 0, 0, 0.0;
      fixedStep, target := false, 1.0 / 60.0;
    }

    method Reset(now: real)
      modifies this
      ensures View() == Restarted(old(View()), now)
      ensures lastTime == now && leftOver == 0.0 && fps == 0 && framesThisSec == 0 && secondsCounter == 0.0
      ensures elapsedSecs == old(elapsedSecs) && totalSecs == old(totalSecs) && frameCount == old(frameCount)
      ensures fixedStep == old(fixedStep) && target == old(target)
    {
      lastTime := now;
      leftOver := 0.0;
      fps := 0;
      framesThisSec := 0;
      secondsCounter := 0.0;
    }

    method SetFixedTimeStep(on: bool)
      modifies this
      ensures View() == old(View()).(fixedStep := on)
    {
      fixedStep := on;
    }

    method SetTargetElapsedSeconds(secs: real)
      modifies this
      ensures View() == old(View()).(target := secs)
    {
      target := secs;
    }

    /** The accumulator loop: one callback for every whole target carried over. */
    method RunDueSteps() returns (calls: nat)
      requires leftOver >= 0.0 && target > 0.0
      modifies this`elapsedSecs, this`totalSecs, this`leftOver, this`frameCount
      ensures calls == Whole(old(leftOver), target)
      ensures elapsedSecs == if calls > 0 then target else old(elapsedSecs)
      ensures totalSecs == old(totalSecs) + Steps(calls, target)
      ensures leftOver == old(leftOver) - Steps(calls, target)
      ensures frameCount == old(frameCount) + calls
    {
      calls := 0;
      while leftOver >= target
        invariant leftOver >= 0.0
        invariant leftOver == old(leftOver) - Steps(calls, target)
        invariant totalSecs == old(totalSecs) + Steps(calls, target)
        invariant elapsedSecs == if calls > 0 then target else old(elapsedSecs)
        invariant frameCount == old(frameCount) + calls
        decreases Whole(leftOver, target)
      {
        OneFewer(leftOver, target);
        elapsedSecs := target;
        totalSecs := totalSecs + target;
        leftOver := leftOver - target;
        frameCount := frameCount + 1;
        calls := calls + 1;
      }
      WholeUnique(old(leftOver), target, calls);
    }

    /** One tick at instant `now`; `calls` counts the callbacks made. */
    method TickFn(now: real) returns (calls: nat)
      requires Good(View()) && CanTick(View())
      modifies this
      ensures calls == Fired(old(View()), now)
      ensures View() == Ticked(old(View()), now)
      ensures frameCount == old(frameCount) + calls && lastTime == now
      ensures !fixedStep ==> calls == 1
      ensures fixedStep ==> elapsedSecs == if calls > 0 then target else old(elapsedSecs)
      ensures Good(View()) && CanTick(View())
    {
      hide Rolled;
      calls := 0;
      var timeDelta := if now > lastTime then now - lastTime else 0.0;
      lastTime := now;
      secondsCounter := secondsCounter + timeDelta;
      if timeDelta > MAX_DELTA {
        timeDelta := MAX_DELTA;
      }
      var lastFrameCount := frameCount;
      calls := Advance(timeDelta);
      TrackFrameRate(frameCount - lastFrameCount);
    }

    /** The part of a tick that moves the clock on, in either mode. */
    method Advance(timeDelta: real) returns (calls: nat)
      requires timeDelta >= 0.0 && leftOver >= 0.0 && (fixedStep ==> target > 0.0)
      modifies this`elapsedSecs, this`totalSecs, this`leftOver, this`frameCount
      ensures frameCount == old(frameCount) + calls
      ensures !fixedStep ==>
                calls == 1 && elapsedSecs == timeDelta && totalSecs == old(totalSecs) + timeDelta && leftOver == 0.0
      ensures fixedStep ==>
                var time := old(leftOver) + (if Abs(timeDelta - target) < SNAP then target else timeDelta);
                calls == Whole(time, target) && leftOver == time - Steps(calls, target) &&
                totalSecs == old(totalSecs) + Steps(calls, target) &&
                elapsedSecs == if calls > 0 then target else old(elapsedSecs)
    {
      if fixedStep {
        var delta := timeDelta;
        var absTicks := if timeDelta < target then target - timeDelta else timeDelta - target;
        if absTicks < SNAP {
          delta := target;
        }
        leftOver := leftOver + delta;
        calls := RunDueSteps();
      } else {
        elapsedSecs := timeDelta;
        totalSecs := totalSecs + timeDelta;
        leftOver := 0.0;
        frameCount := frameCount + 1;
        calls := 1;
      }
    }

    /** The end of every tick: roll the window over once a second has been counted. */
    method TrackFrameRate(fired: nat)
      modifies this`fps, this`framesThisSec, this`secondsCounter
      ensures View() == Rolled(old(View()), fired)
    {
      framesThisSec := framesThisSec + fired;
      if secondsCounter >= 1.0 {
        fps := framesThisSec;
        framesThisSec := 0;
        secondsCounter := secondsCounter - secondsCounter.Floor as real;
      }
    }
  }

  /** The rate is published, and the window restarted, exactly when a second has been counted. */
  lemma RolledTold(c: Clock, fired: nat)
    ensures var d := Rolled(c, fired);
            d == (if c.secondsCounter < 1.0 then c.(framesThisSec := d.framesThisSec)
                  else c.(fps := d.fps, framesThisSec := 0, secondsCounter := d.secondsCounter)) &&
            (if c.secondsCounter < 1.0 then d.framesThisSec else d.fps) == c.framesThisSec + fired &&
            (c.secondsCounter >= 1.0 ==> d.secondsCounter == c.secondsCounter - c.secondsCounter.Floor as real)
  {
  }

  lemma OneFewer(x: real, t: real)
    requires t > 0.0 && x >= t
    ensures Whole(x - t, t) + 1 == Whole(x, t)
  {
    var m := Whole(x - t, t);
    assert Steps(m + 1, t) == Steps(m, t) + t;
    WholeUnique(x, t, m + 1);
  }

  /** The inner loop's guard holds on every round exactly when the target is not positive:
      a positive target is what termination needs. */
  lemma GuardHoldsForever(left: real, t: real)
    requires left >= 0.0
    ensures (forall n: nat :: left - Steps(n, t) >= t) <==> t <= 0.0
  {
    if t <= 0.0 {
      forall n: nat
        ensures left - Steps(n, t) >= t
      {
        StepsNotPositive(n, t);
      }
    } else {
      var n := Whole(left, t);
      assert !(left - Steps(n, t) >= t);
    }
  }

  lemma {:induction false} StepsNotPositive(n: nat, t: real)
    requires t <= 0.0
    ensures Steps(n, t) <= 0.0 && (n > 0 ==> Steps(n, t) <= t)
  {
    if n > 0 {
      StepsNotPositive(n - 1, t);
    }
  }

  // ---------------------------------------------------------------- whole runs

  datatype Op =
    | Tick(now: real)
    | Reset(now: real)
    | SetFixed(on: bool)
    | SetTarget(secs: real)

  predicate Allowed(c: Clock, op: Op) {
    op.Tick? ==> CanTick(c)
  }

  ghost function Apply(c: Clock, op: Op): (c': Clock)
    requires Good(c) && Allowed(c, op)
    ensures Good(c')
  {
    match op
    case Tick(now) => Ticked(c, now)
    case Reset(now) => Restarted(c, now)
    case SetFixed(on) => c.(fixedStep := on)
    case SetTarget(secs) => c.(target := secs)
  }

  ghost predicate AllAllowed(c: Clock, ops: seq<Op>)
    requires Good(c)
    decreases |ops|
  {
    ops == [] || (Allowed(c, ops[0]) && AllAllowed(Apply(c, ops[0]), ops[1..]))
  }

  ghost function Run(c: Clock, ops: seq<Op>): (c': Clock)
    requires Good(c) && AllAllowed(c, ops)
    ensures Good(c')
    decreases |ops|
  {
    if ops == [] then c else Run(Apply(c, ops[0]), ops[1..])
  }

  /** What a run put into the clock, step by step. */
  datatype Ledger = Ledger(
    offered: real,     // effective deltas
    clamped: real,     // clamped raw deltas
    raw: real,         // raw deltas
    discarded: real,   // left-over dropped by resets and variable ticks
    fixedTicks: nat,
    flushed: nat)      // sum of the frame rates published

  const EMPTY := Ledger(0.0, 0.0, 0.0, 0.0, 0, 0)

  ghost function Booked(c: Clock, op: Op): Ledger
    requires Good(c) && Allowed(c, op)
  {
    match op
    case Tick(now) =>
      Ledger(Effective(c, now), Clamped(Raw(c, now)), Raw(c, now),
             if c.fixedStep then 0.0 else c.leftOver,
             if c.fixedStep then 1 else 0,
             if c.secondsCounter + Raw(c, now) >= 1.0 then Ticked(c, now).fps else 0)
    case Reset(_) => EMPTY.(discarded := c.leftOver)
    case SetFixed(_) => EMPTY
    case SetTarget(_) => EMPTY
  }

  function Sum(a: Ledger, b: Ledger): Ledger {
    Ledger(a.offered + b.offered, a.clamped + b.clamped, a.raw + b.raw,
           a.discarded + b.discarded, a.fixedTicks + b.fixedTicks, a.flushed + b.flushed)
  }

  ghost function Books(c: Clock, ops: seq<Op>): Ledger
    requires Good(c) && AllAllowed(c, ops)
    decreases |ops|
  {
    if ops == [] then EMPTY
    else Sum(Booked(c, ops[0]), Books(Apply(c, ops[0]), ops[1..]))
  }

  /** Time is conserved by every run of every operation: what the clock shows plus what
      it carries over grows by exactly what was offered less what was dropped. */
  lemma {:induction false} TimeConserved(c: Clock, ops: seq<Op>)
    requires Good(c) && AllAllowed(c, ops)
    ensures var c', b := Run(c, ops), Books(c, ops);
            c'.totalSecs + c'.leftOver == c.totalSecs + c.leftOver + b.offered - b.discarded
    decreases |ops|
  {
    hide Apply, Booked;
    if ops != [] {
      StepConservesTime(c, ops[0]);
      TimeConserved(Apply(c, ops[0]), ops[1..]);
    }
  }

  lemma StepConservesTime(c: Clock, op: Op)
    requires Good(c) && Allowed(c, op)
    ensures var c', b := Apply(c, op), Booked(c, op);
            c'.totalSecs + c'.leftOver == c.totalSecs + c.leftOver + b.offered - b.discarded
  {
  }

  /** Snapping drifts by less than the tolerance per fixed-step tick, and not at all
      without one. */
  lemma {:induction false} DriftBounded(c: Clock, ops: seq<Op>)
    requires Good(c) && AllAllowed(c, ops)
    ensures var b := Books(c, ops);
            Abs(b.offered - b.clamped) <= b.fixedTicks as real * SNAP &&
            (b.fixedTicks > 0 ==> Abs(b.offered - b.clamped) < b.fixedTicks as real * SNAP)
    decreases |ops|
  {
    if ops != [] {
      DriftBounded(Apply(c, ops[0]), ops[1..]);
    }
  }

  predicate NoReset(ops: seq<Op>) {
    forall op :: op in ops ==> !op.Reset?
  }

  /** Between two resets no frame is lost or counted twice by the frame-rate window, and
      the seconds counter is the fractional part of all the unclamped time. */
  lemma {:induction false} FramesConserved(c: Clock, ops: seq<Op>)
    requires Good(c) && AllAllowed(c, ops) && NoReset(ops)
    ensures var c', b := Run(c, ops), Books(c, ops);
            b.flushed + c'.framesThisSec == c.framesThisSec + (c'.frameCount - c.frameCount) &&
            c'.secondsCounter == Fraction(c.secondsCounter + b.raw)
    decreases |ops|
  {
    hide Apply, Booked, Fraction, Allowed;
    if ops == [] {
      FractionOfFraction(c.secondsCounter);
    } else {
      var c1 := Apply(c, ops[0]);
      FramesConserved(c1, ops[1..]);
      StepConservesFrames(c, ops[0]);
      var x, y := c.secondsCounter + Booked(c, ops[0]).raw, Books(c1, ops[1..]).raw;
      FractionAdd(x, y);
      assert x + y == c.secondsCounter + Books(c, ops).raw;
    }
  }

  lemma FractionOfFraction(x: real)
    ensures 0.0 <= x < 1.0 ==> Fraction(x) == x
  {
    if 0.0 <= x < 1.0 { assert x.Floor == 0; }
  }

  lemma StepConservesFrames(c: Clock, op: Op)
    requires Good(c) && Allowed(c, op) && !op.Reset?
    ensures var c', b := Apply(c, op), Booked(c, op);
            b.flushed + c'.framesThisSec == c.framesThisSec + (c'.frameCount - c.frameCount) &&
            c'.secondsCounter == Fraction(c.secondsCounter + b.raw)
  {
    FractionOfFraction(c.secondsCounter + Booked(c, op).raw);
  }

  // ---------------------------------------------------------------- fixed-step runs

  function Ticks(instants: seq<real>): (ops: seq<Op>)
    ensures |ops| == |instants|
    ensures forall i :: 0 <= i < |ops| ==> ops[i] == Tick(instants[i])
  {
    seq(|instants|, i requires 0 <= i < |instants| => Tick(instants[i]))
  }

  ghost predicate Stepping(c: Clock) {
    Good(c) && c.fixedStep && c.target > 0.0
  }

  lemma {:induction false} TicksAllowed(c: Clock, instants: seq<real>)
    requires Stepping(c)
    ensures AllAllowed(c, Ticks(instants))
    decreases |instants|
  {
    if instants != [] {
      assert Ticks(instants)[1..] == Ticks(instants[1..]);
      TicksAllowed(Apply(c, Tick(instants[0])), instants[1..]);
    }
  }

  /** Any number of ticks with a constant target has one closed form: the callbacks are
      the whole steps in the carried-over time plus all the effective deltas, the clock
      grows by that many targets, and the rest is carried over, less than one target. */
  lemma {:induction false} FixedStepClosedForm(c: Clock, instants: seq<real>)
    requires Stepping(c) && c.leftOver < c.target
    ensures AllAllowed(c, Ticks(instants))
    ensures var c', time := Run(c, Ticks(instants)), c.leftOver + Books(c, Ticks(instants)).offered;
            Advanced(c, time, c') && 0.0 <= c'.leftOver < c.target
    decreases |instants|
  {
    hide Ticked, Effective, Raw, Clamped;
    TicksAllowed(c, instants);
    var t, ops := c.target, Ticks(instants);
    if instants == [] {
      WholeUnique(c.leftOver, t, 0);
    } else {
      var rest := instants[1..];
      assert ops[1..] == Ticks(rest);
      var e, c1 := Effective(c, instants[0]), Apply(c, ops[0]);
      FixedTick(c, instants[0]);
      FixedStepClosedForm(c1, rest);
      OfferedNotNegative(c1, rest);
      JoinClosedForms(c, e, c1, Books(c1, Ticks(rest)).offered, Run(c, ops));
      assert c.leftOver + Books(c, ops).offered == c.leftOver + e + Books(c1, Ticks(rest)).offered;
    }
  }

  /** `d` is `c` after `time` has passed through its fixed-step accumulator. */
  ghost predicate Advanced(c: Clock, time: real, d: Clock)
    requires Stepping(c)
  {
    time >= 0.0 &&
    var n := Whole(time, c.target);
    d.frameCount == c.frameCount + n &&
    d.totalSecs == c.totalSecs + Steps(n, c.target) &&
    d.leftOver == time - Steps(n, c.target) &&
    d.target == c.target && d.fixedStep
  }

  lemma FixedTick(c: Clock, now: real)
    requires Stepping(c)
    ensures Effective(c, now) >= 0.0
    ensures Stepping(Ticked(c, now)) && Ticked(c, now).leftOver < c.target
    ensures Advanced(c, c.leftOver + Effective(c, now), Ticked(c, now))
  {
  }

  lemma JoinClosedForms(c: Clock, e: real, c1: Clock, rest: real, c2: Clock)
    requires Stepping(c) && Stepping(c1) && e >= 0.0 && rest >= 0.0
    requires Advanced(c, c.leftOver + e, c1) && Advanced(c1, c1.leftOver + rest, c2)
    ensures Advanced(c, c.leftOver + e + rest, c2)
  {
    var t := c.target;
    WholeSplit(c.leftOver + e, rest, t);
    StepsAdd(Whole(c.leftOver + e, t), Whole(c1.leftOver + rest, t), t);
  }

  lemma {:induction false} OfferedNotNegative(c: Clock, instants: seq<real>)
    requires Stepping(c)
    ensures AllAllowed(c, Ticks(instants))
    ensures Books(c, Ticks(instants)).offered >= 0.0
    decreases |instants|
  {
    TicksAllowed(c, instants);
    if instants != [] {
      assert Ticks(instants)[1..] == Ticks(instants[1..]);
      OfferedNotNegative(Apply(c, Tick(instants[0])), instants[1..]);
    }
  }

  /** However the same effective time is cut into ticks, the callbacks, the clock and the
      carried-over time come out the same. */
  lemma ChunkingIndependence(c: Clock, a: seq<real>, b: seq<real>)
    requires Stepping(c) && c.leftOver < c.target
    requires AllAllowed(c, Ticks(a)) && AllAllowed(c, Ticks(b))
    requires Books(c, Ticks(a)).offered == Books(c, Ticks(b)).offered
    ensures var x, y := Run(c, Ticks(a)), Run(c, Ticks(b));
            x.frameCount == y.frameCount && x.totalSecs == y.totalSecs && x.leftOver == y.leftOver
  {
    hide Ticked, Books, Run, AllAllowed;
    FixedStepClosedForm(c, a);
    FixedStepClosedForm(c, b);
  }

  /** Whether every tick's delta reaches the accumulator as it was measured. */
  ghost predicate Untouched(c: Clock, instants: seq<real>)
    requires Stepping(c)
    decreases |instants|
  {
    instants == [] ||
    (instants[0] >= c.lastTime && Effective(c, instants[0]) == Raw(c, instants[0]) &&
     Untouched(Apply(c, Tick(instants[0])), instants[1..]))
  }

  /** When no delta is clamped or snapped, the whole run is decided by its last instant. */
  lemma OnlyTheLastInstantMatters(c: Clock, instants: seq<real>)
    requires Stepping(c) && c.leftOver < c.target && instants != [] && Untouched(c, instants)
    ensures AllAllowed(c, Ticks(instants))
    ensures var time := c.leftOver + (instants[|instants| - 1] - c.lastTime);
            time >= 0.0 &&
            Run(c, Ticks(instants)).frameCount == c.frameCount + Whole(time, c.target)
  {
    hide Ticked, Books, Run, AllAllowed, Untouched, Ticks;
    UntouchedSum(c, instants);
    FixedStepClosedForm(c, instants);
  }

  lemma {:induction false} UntouchedSum(c: Clock, instants: seq<real>)
    requires Stepping(c) && instants != [] && Untouched(c, instants)
    ensures AllAllowed(c, Ticks(instants))
    ensures Books(c, Ticks(instants)).offered == instants[|instants| - 1] - c.lastTime
    decreases |instants|
  {
    TicksAllowed(c, instants);
    var ops, rest := Ticks(instants), instants[1..];
    assert ops[1..] == Ticks(rest);
    var c1 := Apply(c, ops[0]);
    if rest != [] {
      UntouchedSum(c1, rest);
      assert rest[|rest| - 1] == instants[|instants| - 1];
    }
  }

  /** A frame rate published in fixed mode measures its window: the frames it counts, each
      one target long, are within one target of the effective time since the window opened. */
  lemma PublishedRateMeasuresWindow(c: Clock, instants: seq<real>)
    requires Stepping(c) && c.leftOver < c.target && c.framesThisSec == 0
    requires |instants| > 0
    requires AllAllowed(c, Ticks(instants)) && AllAllowed(c, Ticks(instants[..|instants| - 1]))
    requires c.secondsCounter + Books(c, Ticks(instants[..|instants| - 1])).raw < 1.0
          <= c.secondsCounter + Books(c, Ticks(instants)).raw
    ensures var c' := Run(c, Ticks(instants));
            Abs(Steps(c'.fps, c.target) - Books(c, Ticks(instants)).offered) < c.target &&
            c'.framesThisSec == 0
  {
    hide Ticked, Books, Run, AllAllowed;
    FixedStepClosedForm(c, instants);
    LastTickPublishes(c, instants);
  }

  lemma {:induction false} LastTickPublishes(c: Clock, instants: seq<real>)
    requires Stepping(c) && |instants| > 0
    requires AllAllowed(c, Ticks(instants)) && AllAllowed(c, Ticks(instants[..|instants| - 1]))
    requires c.secondsCounter + Books(c, Ticks(instants[..|instants| - 1])).raw < 1.0
          <= c.secondsCounter + Books(c, Ticks(instants)).raw
    ensures var c' := Run(c, Ticks(instants));
            c'.fps == c.framesThisSec + (c'.frameCount - c.frameCount) && c'.framesThisSec == 0
    decreases |instants|
  {
    var ops, init := Ticks(instants), instants[..|instants| - 1];
    assert ops[1..] == Ticks(instants[1..]);
    var c1 := Apply(c, ops[0]);
    if |instants| > 1 {
      assert Ticks(init)[1..] == Ticks(init[1..]);
      assert instants[1..][..|instants[1..]| - 1] == init[1..];
      RawNotNegative(c1, init[1..]);
      LastTickPublishes(c1, instants[1..]);
    } else {
      assert Ticks(init) == [];
      assert ops[1..] == [];
    }
  }

  lemma {:induction false} RawNotNegative(c: Clock, instants: seq<real>)
    requires Stepping(c) && AllAllowed(c, Ticks(instants))
    ensures Books(c, Ticks(instants)).raw >= 0.0
    decreases |instants|
  {
    if instants != [] {
      assert Ticks(instants)[1..] == Ticks(instants[1..]);
      RawNotNegative(Apply(c, Tick(instants[0])), instants[1..]);
    }
  }

  // ---------------------------------------------------------------- runs of ticks, by their instants

  /** The time between two queries, cut off at 60000 seconds. */
  function Gap(last: real, now: real): real {
    if now <= last then 0.0 else if now - last <= 60000.0 then now - last else 60000.0
  }

  /** The sum of the gaps. */
  function Gaps(last: real, instants: seq<real>): real
    decreases |instants|
  {
    if instants == [] then 0.0 else Gap(last, instants[0]) + Gaps(instants[0], instants[1..])
  }

  /** The sum of the gaps, each of them snapped to the target if it is closer than 0.0004. */
  function Snapped(target: real, last: real, instants: seq<real>): real
    decreases |instants|
  {
    if instants == [] then 0.0
    else
      var d := Gap(last, instants[0]);
      (if d - target < 0.0004 && target - d < 0.0004 then target else d) + Snapped(target, instants[0], instants[1..])
  }

  function LastOf(first: real, instants: seq<real>): real {
    if instants == [] then first else instants[|instants| - 1]
  }

  /** In variable mode every tick is one frame, and shows the time since the one before. */
  lemma {:induction false} VariableTicks(c: Clock, instants: seq<real>)
    requires Good(c) && !c.fixedStep
    ensures AllAllowed(c, Ticks(instants))
    ensures var d, n := Run(c, Ticks(instants)), |instants|;
            d.frameCount == c.frameCount + n &&
            d.totalSecs == c.totalSecs + Gaps(c.lastTime, instants) &&
            d.lastTime == LastOf(c.lastTime, instants) &&
            d.leftOver == (if n == 0 then c.leftOver else 0.0) &&
            d.elapsedSecs == (if n == 0 then c.elapsedSecs
                              else Gap(LastOf(c.lastTime, instants[..n - 1]), instants[n - 1])) &&
            !d.fixedStep && d.target == c.target
    decreases |instants|
  {
    var ops, n := Ticks(instants), |instants|;
    if instants == [] {
      assert ops == [];
    } else {
      var c1, rest := Apply(c, ops[0]), instants[1..];
      assert ops[1..] == Ticks(rest);
      VariableTick(c, instants[0]);
      hide Ticked;
      VariableTicks(c1, rest);
      if n > 1 {
        assert rest[..n - 2] == instants[1..n - 1];
        assert LastOf(c1.lastTime, rest[..n - 2]) == LastOf(c.lastTime, instants[..n - 1]);
      }
    }
  }

  lemma VariableTick(c: Clock, now: real)
    requires Good(c) && !c.fixedStep
    ensures var d := Ticked(c, now);
            d.frameCount == c.frameCount + 1 && d.totalSecs == c.totalSecs + Gap(c.lastTime, now) &&
            d.elapsedSecs == Gap(c.lastTime, now) && d.leftOver == 0.0 && d.lastTime == now &&
            !d.fixedStep && d.target == c.target
  {
  }

  /** In fixed mode the frames are the floor of the snapped time over the target; the clock
      grows by a target for each, the rest is carried over, and the time shown is the target
      as soon as there was a frame. */
  lemma FixedTicks(c: Clock, instants: seq<real>)
    requires Stepping(c) && c.leftOver < c.target
    ensures AllAllowed(c, Ticks(instants))
    ensures var d, time := Run(c, Ticks(instants)), c.leftOver + Snapped(c.target, c.lastTime, instants);
            var n := (time / c.target).Floor;
            n >= 0 && d.frameCount == c.frameCount + n &&
            d.totalSecs == c.totalSecs + n as real * c.target &&
            d.leftOver == time - n as real * c.target &&
            d.elapsedSecs == (if n > 0 then c.target else c.elapsedSecs) &&
            d.lastTime == LastOf(c.lastTime, instants)
  {
    hide Ticked, Books, Run, AllAllowed, Snapped, Ticks;
    FixedStepClosedForm(c, instants);
    OfferedIsSnapped(c, instants);
    var time := c.leftOver + Snapped(c.target, c.lastTime, instants);
    WholeIsFloor(time, c.target);
    StepsIsProduct(Whole(time, c.target), c.target);
  }

  lemma {:induction false} OfferedIsSnapped(c: Clock, instants: seq<real>)
    requires Stepping(c)
    ensures AllAllowed(c, Ticks(instants))
    ensures Books(c, Ticks(instants)).offered == Snapped(c.target, c.lastTime, instants)
    ensures var d := Run(c, Ticks(instants));
            d.lastTime == LastOf(c.lastTime, instants) && d.frameCount >= c.frameCount &&
            d.elapsedSecs == if d.frameCount > c.frameCount then c.target else c.elapsedSecs
    decreases |instants|
  {
    TicksAllowed(c, instants);
    var ops := Ticks(instants);
    if instants == [] {
      assert ops == [];
    } else {
      var c1, rest := Apply(c, ops[0]), instants[1..];
      assert ops[1..] == Ticks(rest);
      FixedTickTold(c, instants[0]);
      hide Ticked, Effective;
      OfferedIsSnapped(c1, rest);
    }
  }

  lemma FixedTickTold(c: Clock, now: real)
    requires Stepping(c)
    ensures var d, gap := Ticked(c, now), Gap(c.lastTime, now);
            Effective(c, now) == (if gap - c.target < 0.0004 && c.target - gap < 0.0004 then c.target else gap) &&
            d.lastTime == now && d.target == c.target && Stepping(d) && d.frameCount >= c.frameCount &&
            d.elapsedSecs == if d.frameCount > c.frameCount then c.target else c.elapsedSecs
  {
  }
}
