/**
 Server-authoritative vertical motion: gravity, floor collision, jumping and the levitation
 watchdog, in saturating fixed point. Every flight ends, saturated or not, exactly when time
 passes; without saturation an energy argument bounds its height and duration.
 */
module JumpPhysics {
  import opened Words
  import opened Bitwise
  import opened FixedPoint

  const JUMPING := 2      // bit numbers of the movement flags
  const FALLING := 3
  const MAX_AIRBORNE_TICKS: u16 := 50
  const STANDARD_GRAVITY: i64 := 980665 * SCALE / 100000
  const JUMP_INITIAL_VELOCITY: i64 := 5 * SCALE
  const JUMP_REACH: i64 := 214748364   // 0.05 metres converted by Fixed64::from_f64
  const TICK: i64 := 214748364         // 0.05 seconds, the same fraction: 20 ticks a second

  datatype Vertical = Vertical(y: i64, v: i64, flags: u8, airborneTicks: u16)

  datatype MovementViolation = NoViolation | LevitationWatchdogTrip(airborneTicks: u16)

  function SetFlag(flags: u8, k: nat): u8
    requires k < 8
  {
    Pow2Small();
    ShlIsMul(1, k);
    Pow2Mono(k + 1, 8);
    OrBound(flags, Shl(1, k), 8);
    Or(flags, Shl(1, k))
  }

  function ClearFlag(flags: u8, k: nat): u8
    requires k < 8
  {
    Pow2Small();
    ShlIsMul(1, k);
    Pow2Mono(k + 1, 8);
    AndBound(flags, Not(Shl(1, k), 8));
    And(flags, Not(Shl(1, k), 8))
  }

  lemma FlagBits(flags: u8, k: nat, j: nat)
    requires k < 8 && j < 8
    ensures Bit(SetFlag(flags, k), j) == (j == k || Bit(flags, j))
    ensures Bit(ClearFlag(flags, k), j) == (j != k && Bit(flags, j))
  {
    Pow2Small();
    ShlIsMul(1, k);
    Pow2Mono(k + 1, 8);
    BitPow2(k, j);
    BitOr(flags, Shl(1, k), j);
    BitAnd(flags, Not(Shl(1, k), 8), j);
    BitNot(Shl(1, k), 8, j);
  }

  predicate IsAirborne(s: Vertical, floor: i64) {
    s.y > floor || Bit(s.flags, JUMPING) || Bit(s.flags, FALLING) || s.v != 0
  }

  /** The velocity lost in one tick. */
  function GravityStep(dt: i64): i64 { SaturatingMul(STANDARD_GRAVITY, dt) }

  /** One tick of `step_authoritative_vertical_kinematics`. */
  function Step(s: Vertical, floor: i64, dt: i64): (Vertical, MovementViolation) {
    if !IsAirborne(s, floor) then (s.(airborneTicks := 0), NoViolation)
    else
      var ticks := Min(s.airborneTicks + 1, 0xFFFF);
      var tripped := ticks > MAX_AIRBORNE_TICKS;
      var flags1 := if tripped then SetFlag(ClearFlag(s.flags, JUMPING), FALLING) else s.flags;
      var violation := if tripped then LevitationWatchdogTrip(ticks) else NoViolation;
      var v := SaturatingSub(s.v, GravityStep(dt));
      var y := SaturatingAdd(s.y, SaturatingMul(v, dt));
      var flags2 := if v < 0 then SetFlag(ClearFlag(flags1, JUMPING), FALLING) else flags1;
      if y <= floor then
        (Vertical(floor, 0, ClearFlag(ClearFlag(flags2, JUMPING), FALLING), 0), violation)
      else (Vertical(y, v, flags2, ticks), violation)
  }

  /** The same tick, updating the entity's fields in place. */
  class Body {
    var positionY: i64
    var velocityY: i64
    var flags: u8
    var airborneTicks: u16

    function State(): Vertical
      reads this
    {
      Vertical(positionY, velocityY, flags, airborneTicks)
    }

    constructor (y: i64)
      ensures State() == Vertical(y, 0, 0, 0)
    {
      positionY, velocityY, flags, airborneTicks := y, 0, 0, 0;
    }

    method StepVertical(floor: i64, dt: i64) returns (violation: MovementViolation)
      modifies this
      ensures (State(), violation) == Step(old(State()), floor, dt)
    {
      if !IsAirborne(State(), floor) {
        airborneTicks := 0;
        return NoViolation;
      }
      airborneTicks := Min(airborneTicks + 1, 0xFFFF);
      violation := NoViolation;
      if airborneTicks > MAX_AIRBORNE_TICKS {
        flags := ClearFlag(flags, JUMPING);
        flags := SetFlag(flags, FALLING);
        violation := LevitationWatchdogTrip(airborneTicks);
      }
      velocityY := SaturatingSub(velocityY, SaturatingMul(STANDARD_GRAVITY, dt));
      positionY := SaturatingAdd(positionY, SaturatingMul(velocityY, dt));
      if velocityY < 0 {
        flags := ClearFlag(flags, JUMPING);
        flags := SetFlag(flags, FALLING);
      }
      if positionY <= floor {
        positionY := floor;
        velocityY := 0;
        airborneTicks := 0;
        flags := ClearFlag(ClearFlag(flags, JUMPING), FALLING);
      }
    }

    method TryInitiateJump(floor: i64) returns (ok: bool)
      modifies this
      ensures (State(), ok) == TryJump(old(State()), floor)
    {
      if positionY <= SaturatingAdd(floor, JUMP_REACH) && airborneTicks == 0 {
        velocityY := JUMP_INITIAL_VELOCITY;
        flags := SetFlag(flags, JUMPING);
        flags := ClearFlag(flags, FALLING);
        airborneTicks := 1;
        return true;
      }
      ok := false;
    }
  }

  function TryJump(s: Vertical, floor: i64): (Vertical, bool) {
    if s.y <= SaturatingAdd(floor, JUMP_REACH) && s.airborneTicks == 0 then
      (Vertical(s.y, JUMP_INITIAL_VELOCITY, ClearFlag(SetFlag(s.flags, JUMPING), FALLING), 1), true)
    else (s, false)
  }

  /** On the floor, at rest, with the airborne flags and the counter clear. */
  predicate Landed(s: Vertical, floor: i64) {
    s.y == floor && s.v == 0 && s.airborneTicks == 0 && !Bit(s.flags, JUMPING) && !Bit(s.flags, FALLING)
  }

  /** Twice the energy of the body above the floor, scaled to integers. */
  function Energy(s: Vertical, floor: i64, dt: i64): int {
    2 * GravityStep(dt) * SCALE * (s.y - floor) + s.v * s.v * dt
  }

  /** No operation of the next tick saturates. */
  ghost predicate Unsaturated(s: Vertical, dt: i64) {
    var v := s.v - GravityStep(dt);
    && I64_MIN <= v <= I64_MAX
    && I64_MIN <= v * dt / SCALE <= I64_MAX
    && I64_MIN <= s.y + v * dt / SCALE <= I64_MAX
  }

  /**
   Every tick keeps the other movement flags, never ends below the floor, and counts. Only a
   body that rests below the floor stays there.
   */
  lemma StepShape(s: Vertical, floor: i64, dt: i64)
    ensures var (s', violation) := Step(s, floor, dt);
            && (forall k: nat :: k < 8 && k != JUMPING && k != FALLING ==> Bit(s'.flags, k) == Bit(s.flags, k))
            && (violation.LevitationWatchdogTrip? <==>
                  IsAirborne(s, floor) && s.airborneTicks >= MAX_AIRBORNE_TICKS)
            && (violation.LevitationWatchdogTrip? ==> violation.airborneTicks == Min(s.airborneTicks + 1, 0xFFFF))
    ensures var s' := Step(s, floor, dt).0;
            if s.y >= floor || IsAirborne(s, floor) then
              && s'.y >= floor
              && (Landed(s', floor) || (s'.y > floor && IsAirborne(s, floor)
                                        && s'.airborneTicks == Min(s.airborneTicks + 1, 0xFFFF)
                                        && (s'.v < 0 ==> !Bit(s'.flags, JUMPING) && Bit(s'.flags, FALLING))))
            else s' == s.(airborneTicks := 0)
  {
    forall flags: u8, k: nat, j: nat | k < 8 && j < 8
      ensures Bit(SetFlag(flags, k), j) == (j == k || Bit(flags, j))
      ensures Bit(ClearFlag(flags, k), j) == (j != k && Bit(flags, j))
    {
      FlagBits(flags, k, j);
    }
    hide Bit, SetFlag, ClearFlag;
  }

  /**
   One airborne tick in full: the velocity falls by 9.80665 m/s^2 times the tick, the body moves by
   the new velocity, and either lands or flies on, falling once it moves down or has been up for
   more than 50 ticks. A body that is not airborne only has its counter cleared.
   */
  lemma StepExactly(s: Vertical, floor: i64, dt: i64, lost: i64, v: i64, rise: i64, y: i64)
    requires Saturates(42119241033 * dt / 0x1_0000_0000, lost) && Saturates(s.v - lost, v)
    requires Saturates(v * dt / 0x1_0000_0000, rise) && Saturates(s.y + rise, y)
    ensures var (s', violation) := Step(s, floor, dt);
            var ticks := if s.airborneTicks < 65535 then s.airborneTicks + 1 else 65535;
            if s.y <= floor && s.v == 0 && !Bit(s.flags, JUMPING) && !Bit(s.flags, FALLING)
            then s' == s.(airborneTicks := 0) && violation == NoViolation
            else
              && violation == (if ticks > 50 then LevitationWatchdogTrip(ticks) else NoViolation)
              && (forall k: nat :: k < 8 && k != JUMPING && k != FALLING ==> Bit(s'.flags, k) == Bit(s.flags, k))
              && if y <= floor then Landed(s', floor)
                 else
                   && s'.y == y && s'.v == v && s'.airborneTicks == ticks
                   && (Bit(s'.flags, JUMPING) <==> Bit(s.flags, JUMPING) && v >= 0 && ticks <= 50)
                   && (Bit(s'.flags, FALLING) <==> Bit(s.flags, FALLING) || v < 0 || ticks > 50)
  {
    assert STANDARD_GRAVITY == 42119241033;
    assert lost == GravityStep(dt) && v == SaturatingSub(s.v, lost);
    assert rise == SaturatingMul(v, dt) && y == SaturatingAdd(s.y, rise);
    hide GravityStep, SaturatingMul;
    forall flags: u8, k: nat, j: nat | k < 8 && j < 8
      ensures Bit(SetFlag(flags, k), j) == (j == k || Bit(flags, j))
      ensures Bit(ClearFlag(flags, k), j) == (j != k && Bit(flags, j))
    {
      FlagBits(flags, k, j);
    }
    hide Bit, SetFlag, ClearFlag;
  }

  /**
   A jump is granted exactly to a body whose counter is clear and which is no more than 0.05 m
   above the floor. It keeps the position and every other flag, and sets off at 5 m/s, jumping and
   not falling, with the counter at one. A refusal changes nothing.
   */
  lemma JumpExactly(s: Vertical, floor: i64, reach: i64)
    requires Saturates(floor + 214748364, reach)
    ensures var (s', ok) := TryJump(s, floor);
            && (ok <==> s.airborneTicks == 0 && s.y <= reach)
            && (!ok ==> s' == s)
            && (ok ==>
                  && s'.y == s.y && s'.v == 21474836480 && s'.airborneTicks == 1
                  && Bit(s'.flags, JUMPING) && !Bit(s'.flags, FALLING)
                  && forall k: nat :: k < 8 && k != JUMPING && k != FALLING ==> Bit(s'.flags, k) == Bit(s.flags, k))
  {
    forall flags: u8, k: nat, j: nat | k < 8 && j < 8
      ensures Bit(SetFlag(flags, k), j) == (j == k || Bit(flags, j))
      ensures Bit(ClearFlag(flags, k), j) == (j != k && Bit(flags, j))
    {
      FlagBits(flags, k, j);
    }
    hide Bit, SetFlag, ClearFlag;
  }

  /** Every landed body can jump. */
  lemma LandedCanJump(s: Vertical, floor: i64)
    requires Landed(s, floor)
    ensures TryJump(s, floor).1
  {
    hide SetFlag, ClearFlag, Bit;
  }

  lemma MulAssoc(a: int, b: int, c: int)
    ensures a * b * c == (a * c) * b
  {
  }

  lemma Distribute3(a: int, b: int, c: int, k: int)
    ensures (a + 2 * b + c) * k == a * k + 2 * (b * k) + c * k
  {
  }

  lemma BinomialTimes(w: int, g: int, dt: int)
    ensures (w + g) * (w + g) * dt == w * w * dt + 2 * ((w * dt) * g) + g * g * dt
  {
    assert (w + g) * (w + g) == w * w + 2 * (w * g) + g * g;
    Distribute3(w * w, w * g, g * g, dt);
    MulAssoc(w, g, dt);
  }

  lemma PotentialStep(g: int, h: int, rise: int)
    ensures 2 * g * SCALE * (h + rise) == 2 * g * SCALE * h + 2 * ((rise * SCALE) * g)
  {
    var c := 2 * g * SCALE;
    assert c * (h + rise) == c * h + c * rise;
    assert c * rise == 2 * ((rise * SCALE) * g);
  }

  /** The kinetic gain is at most what the potential loses, less g^2 * dt. */
  lemma EnergyArithmetic(h: int, v: int, dt: int, g: int, rise: int)
    requires g >= 0 && rise * SCALE <= (v - g) * dt
    ensures 2 * g * SCALE * (h + rise) + (v - g) * (v - g) * dt
            <= 2 * g * SCALE * h + v * v * dt - g * g * dt
  {
    ScaleMono(rise * SCALE, (v - g) * dt, g);
    PotentialStep(g, h, rise);
    BinomialTimes(v - g, g, dt);
    assert (v - g) + g == v;
  }

  /** The least energy an airborne tick costs. */
  function TickCost(dt: i64): (k: int)
    ensures dt > 0 && GravityStep(dt) >= 1 ==> k > 0
  {
    PositiveCost(GravityStep(dt), dt);
    GravityStep(dt) * GravityStep(dt) * dt
  }

  lemma PositiveCost(g: int, dt: int)
    ensures g >= 1 && dt > 0 ==> g * g * dt > 0
  {
    if g >= 1 && dt > 0 {
      SquareMono(1, g);
      ScaleMono(1, g * g, dt);
    }
  }

  /** An airborne tick that does not land loses at least g^2 * dt of energy. */
  lemma EnergyDrops(s: Vertical, floor: i64, dt: i64)
    requires dt >= 0 && GravityStep(dt) >= 1
    requires IsAirborne(s, floor) && Unsaturated(s, dt)
    ensures var s' := Step(s, floor, dt).0;
            Landed(s', floor) || Energy(s', floor, dt) <= Energy(s, floor, dt) - TickCost(dt)
  {
    var g, v := GravityStep(dt), s.v - GravityStep(dt);
    var rise := v * dt / SCALE;
    UnsaturatedTick(s, floor, dt);
    hide *;
    RiseIsFloor(v * dt);
    EnergyArithmetic(s.y - floor, s.v, dt, g, rise);
    var s' := Step(s, floor, dt).0;
    EnergyIs(s, floor, dt);
    EnergyIs(s', floor, dt);
    TickCostIs(dt);
    assert s.y + rise - floor == s.y - floor + rise;
  }

  lemma RiseIsFloor(x: int)
    ensures x / SCALE * SCALE <= x
  {
  }

  lemma EnergyIs(s: Vertical, floor: i64, dt: i64)
    ensures Energy(s, floor, dt) == 2 * GravityStep(dt) * SCALE * (s.y - floor) + s.v * s.v * dt
  {
  }

  lemma TickCostIs(dt: i64)
    ensures TickCost(dt) == GravityStep(dt) * GravityStep(dt) * dt
  {
  }

  /** Absent saturation a tick that does not land adds the velocity's rise to the position. */
  lemma UnsaturatedTick(s: Vertical, floor: i64, dt: i64)
    requires IsAirborne(s, floor) && Unsaturated(s, dt)
    ensures var s' := Step(s, floor, dt).0; var v := s.v - GravityStep(dt);
            Landed(s', floor) || (s'.v == v && s'.y == s.y + v * dt / SCALE)
  {
    LandingClears(s, floor, dt);
    MulUnsaturated(s.v - GravityStep(dt), dt);
    hide GravityStep, SetFlag, ClearFlag, SaturatingMul, Landed;
  }

  lemma MulUnsaturated(v: int, dt: i64)
    requires I64_MIN <= v <= I64_MAX && I64_MIN <= v * dt / SCALE <= I64_MAX
    ensures SaturatingMul(v, dt) == v * dt / SCALE
  {
  }

  lemma LandingClears(s: Vertical, floor: i64, dt: i64)
    requires IsAirborne(s, floor)
    ensures var s' := Step(s, floor, dt).0; Landed(s', floor) || s'.y > floor
  {
    var s' := Step(s, floor, dt).0;
    if s'.y <= floor {
      forall flags: u8
        ensures !Bit(ClearFlag(ClearFlag(flags, JUMPING), FALLING), JUMPING)
        ensures !Bit(ClearFlag(ClearFlag(flags, JUMPING), FALLING), FALLING)
      {
        FlagBits(flags, JUMPING, JUMPING);
        FlagBits(ClearFlag(flags, JUMPING), FALLING, JUMPING);
        FlagBits(ClearFlag(flags, JUMPING), FALLING, FALLING);
      }
    }
  }

  // ----- Whole flights -----

  function Fly(s: Vertical, floor: i64, dt: i64, n: nat): Vertical {
    if n == 0 then s else Step(Fly(s, floor, dt, n - 1), floor, dt).0
  }

  lemma FlyStep(s: Vertical, floor: i64, dt: i64, n: nat)
    ensures Fly(s, floor, dt, 0) == s
    ensures n > 0 ==> Fly(s, floor, dt, n) == Step(Fly(s, floor, dt, n - 1), floor, dt).0
  {
    hide Step;
  }

  /** The furthest a body below `speed` can move in one tick. */
  function Reach(dt: i64, speed: int): int { (speed + GravityStep(dt)) * dt / SCALE + 1 }

  /** The height at which all of `energy` is potential. */
  function Apex(dt: i64, energy: int): int
    requires GravityStep(dt) >= 1
  {
    energy / (2 * GravityStep(dt) * SCALE)
  }

  /**
   Room in the number range for a body of at most `energy` with speed below `speed`: enough
   that no tick of its flight can saturate.
   */
  ghost predicate Headroom(floor: i64, dt: i64, energy: int, speed: int) {
    && dt > 0 && GravityStep(dt) >= 1
    && speed >= 0 && energy < speed * speed * dt
    && speed + GravityStep(dt) <= I64_MAX
    && Reach(dt, speed) <= I64_MAX
    && floor - Reach(dt, speed) >= I64_MIN
    && floor + Apex(dt, energy) + Reach(dt, speed) <= I64_MAX
  }

  lemma SpeedBound(v: int, speed: int, dt: int)
    requires dt > 0 && speed >= 0 && v * v * dt < speed * speed * dt
    ensures -speed < v < speed
  {
    if v >= speed {
      SquareMono(speed, v);
      ScaleMono(speed * speed, v * v, dt);
    } else if -v >= speed {
      SquareMono(speed, -v);
      assert (-v) * (-v) == v * v;
      ScaleMono(speed * speed, v * v, dt);
    }
  }

  lemma ScaleMono(a: int, b: int, k: int)
    requires a <= b && k >= 0
    ensures a * k <= b * k
  {
    assert (b - a) * k >= 0;
    assert b * k == a * k + (b - a) * k;
  }

  lemma DivMono(a: int, b: int, k: int)
    requires a <= b && k > 0
    ensures a / k <= b / k
  {
    DivCancel(b, k, a / k);
  }

  lemma DivNegated(a: int, k: int)
    requires k > 0
    ensures (-a) / k >= -(a / k) - 1
  {
    DivCancel(-a, k, -(a / k) - 1);
  }

  lemma DivCancel(a: int, k: int, q: int)
    requires k > 0 && k * q <= a
    ensures a / k >= q
  {
    if a / k < q {
      MulStep(k, a / k, q);
    }
  }

  lemma SquareTerm(v: int, dt: int)
    requires dt >= 0
    ensures v * v * dt >= 0
  {
    SquareNonNegative(v);
    ScaleMono(0, v * v, dt);
  }

  /** Apex: height is bounded by the energy at every moment. */
  lemma HeightBound(s: Vertical, floor: i64, dt: i64, energy: int)
    requires dt >= 0 && GravityStep(dt) >= 1 && Energy(s, floor, dt) <= energy
    ensures s.y - floor <= Apex(dt, energy)
  {
    SquareTerm(s.v, dt);
    var k := 2 * GravityStep(dt) * SCALE;
    DivCancel(energy, k, s.y - floor);
  }

  /** A speed within `most` moves the body by less than the reach in either direction. */
  lemma RiseBound(v: int, most: int, dt: int)
    requires -most <= v <= most && dt >= 0
    ensures -(most * dt / SCALE + 1) <= v * dt / SCALE <= most * dt / SCALE
  {
    ScaleMono(v, most, dt);
    ScaleMono(-most, v, dt);
    DivMono(v * dt, most * dt, SCALE);
    assert (-most) * dt == -(most * dt);
    DivMono(-(most * dt), v * dt, SCALE);
    DivNegated(most * dt, SCALE);
  }

  lemma KineticBelow(s: Vertical, floor: i64, dt: i64)
    requires dt >= 0 && GravityStep(dt) >= 0 && s.y >= floor
    ensures s.v * s.v * dt <= Energy(s, floor, dt)
  {
    ScaleMono(0, s.y - floor, 2 * GravityStep(dt) * SCALE);
  }

  /** Under headroom the next tick does not saturate. */
  lemma HeadroomKeepsUnsaturated(s: Vertical, floor: i64, dt: i64, energy: int, speed: int)
    requires s.y >= floor && Headroom(floor, dt, energy, speed) && Energy(s, floor, dt) <= energy
    ensures Unsaturated(s, dt)
  {
    hide GravityStep, Energy;
    HeightBound(s, floor, dt, energy);
    KineticBelow(s, floor, dt);
    SpeedBound(s.v, speed, dt);
    RiseBound(s.v - GravityStep(dt), speed + GravityStep(dt), dt);
  }

  /** At rest on the floor, or not above it and not moving: nothing more happens. */
  predicate AtRest(s: Vertical, floor: i64) { !IsAirborne(s, floor) }

  lemma RestIsFinal(s: Vertical, floor: i64, dt: i64)
    requires s.y >= floor
    ensures AtRest(s, floor) ==> AtRest(Step(s, floor, dt).0, floor)
                                 && Energy(Step(s, floor, dt).0, floor, dt) == Energy(s, floor, dt)
    ensures Landed(s, floor) ==> AtRest(s, floor)
    ensures Step(s, floor, dt).0.y >= floor
  {
  }

  // ----- Every flight ends -----

  /** The speed lost in a tick has the sign of the time step and is at least as large. */
  lemma GravityActs(dt: i64)
    ensures dt > 0 ==> GravityStep(dt) >= 1
    ensures dt < 0 ==> GravityStep(dt) <= -1
    ensures dt == 0 ==> GravityStep(dt) == 0
  {
    var g: int := STANDARD_GRAVITY - SCALE;
    assert STANDARD_GRAVITY * dt == SCALE * dt + g * dt;
    if dt > 0 {
      ScaleMono(0, dt, g);
      DivCancel(STANDARD_GRAVITY * dt, SCALE, dt);
    } else {
      ScaleMono(dt, 0, g);
      DivMono(STANDARD_GRAVITY * dt, SCALE * dt, SCALE);
    }
  }

  /** A body moving down in the direction of time moves down at least one raw unit. */
  lemma FallsAtLeastOne(v: i64, dt: i64)
    requires (v < 0 && dt > 0) || (v > 0 && dt < 0)
    ensures SaturatingMul(v, dt) <= -1
  {
    if v < 0 { ScaleMono(v, -1, dt); } else { ScaleMono(dt, -1, v); }
    DivMono(v * dt, -1, SCALE);
  }

  /** The speed still to be lost before the body starts to move down. */
  function Upward(s: Vertical, dt: i64): int {
    var v: int := s.v;
    if dt > 0 then v else -v
  }

  /** Enough ticks to turn the body round and bring it down one raw unit at a time. */
  function Budget(s: Vertical, floor: i64, dt: i64): (b: int)
    requires s.y >= floor
    ensures b >= 1
  {
    if Upward(s, dt) >= 0 then Upward(s, dt) + 1 + (I64_MAX - floor) else Max(s.y - floor, 1)
  }

  lemma TickLowersBudget(s: Vertical, floor: i64, dt: i64)
    requires s.y >= floor && dt != 0 && !AtRest(s, floor)
    ensures var s' := Step(s, floor, dt).0;
            s'.y >= floor && (AtRest(s', floor) || Budget(s', floor, dt) < Budget(s, floor, dt))
  {
    GravityActs(dt);
    LandingClears(s, floor, dt);
    var v := SaturatingSub(s.v, GravityStep(dt));
    hide GravityStep;
    if (v < 0 && dt > 0) || (v > 0 && dt < 0) { FallsAtLeastOne(v, dt); }
    hide SaturatingMul, SetFlag, ClearFlag;
  }

  lemma {:induction false} BudgetSpent(s: Vertical, floor: i64, dt: i64, n: nat)
    requires s.y >= floor && dt != 0
    ensures var s' := Fly(s, floor, dt, n);
            s'.y >= floor && (AtRest(s', floor) || Budget(s', floor, dt) + n <= Budget(s, floor, dt))
  {
    hide Step, AtRest, Budget;
    if n > 0 {
      BudgetSpent(s, floor, dt, n - 1);
      var before := Fly(s, floor, dt, n - 1);
      RestIsFinal(before, floor, dt);
      if !AtRest(before, floor) { TickLowersBudget(before, floor, dt); }
    }
  }

  /** From the floor up a flight is at rest on the floor after its budget, for good. */
  lemma FlightFromFloorEnds(s: Vertical, floor: i64, dt: i64, n: nat)
    requires s.y >= floor && dt != 0 && n >= Budget(s, floor, dt)
    ensures var s' := Fly(s, floor, dt, n); AtRest(s', floor) && s'.y == floor && s'.v == 0
  {
    hide Step, Budget;
    BudgetSpent(s, floor, dt, n);
  }

  /** A body below the floor rests there, or is on or above the floor after one tick. */
  lemma StepFromBelow(s: Vertical, floor: i64, dt: i64)
    requires s.y < floor
    ensures var s' := Step(s, floor, dt).0;
            if AtRest(s, floor) then s'.y == s.y && AtRest(s', floor) else s'.y >= floor
  {
  }

  lemma {:induction false} FlyLater(s: Vertical, floor: i64, dt: i64, n: nat)
    ensures Fly(s, floor, dt, n + 1) == Fly(Step(s, floor, dt).0, floor, dt, n)
  {
    hide Step;
    if n > 0 { FlyLater(s, floor, dt, n - 1); }
  }

  lemma {:induction false} RestsBelow(s: Vertical, floor: i64, dt: i64, n: nat)
    requires s.y < floor && AtRest(s, floor)
    ensures Fly(s, floor, dt, n).y == s.y && AtRest(Fly(s, floor, dt, n), floor)
  {
    hide *;
    FlyStep(s, floor, dt, n);
    if n > 0 {
      RestsBelow(s, floor, dt, n - 1);
      StepFromBelow(Fly(s, floor, dt, n - 1), floor, dt);
    }
  }

  /** The budget of any body; one below the floor spends a tick on getting back to it. */
  function FlightBudget(s: Vertical, floor: i64, dt: i64): nat {
    if s.y >= floor then Budget(s, floor, dt)
    else if AtRest(s, floor) then 0
    else
      StepFromBelow(s, floor, dt);
      1 + Budget(Step(s, floor, dt).0, floor, dt)
  }

  /** Every flight is at rest after its budget, for good, and on the floor unless it rested below. */
  lemma EveryFlightEnds(s: Vertical, floor: i64, dt: i64, n: nat)
    requires dt != 0 && n >= FlightBudget(s, floor, dt)
    ensures var s' := Fly(s, floor, dt, n);
            && AtRest(s', floor) && s'.v == 0
            && s'.y == if s.y < floor && AtRest(s, floor) then s.y else floor
  {
    hide Step, Budget, Bit, Fly;
    if s.y >= floor {
      FlightFromFloorEnds(s, floor, dt, n);
    } else if AtRest(s, floor) {
      RestsBelow(s, floor, dt, n);
    } else {
      StepFromBelow(s, floor, dt);
      FlyLater(s, floor, dt, n - 1);
      FlightFromFloorEnds(Step(s, floor, dt).0, floor, dt, n - 1);
    }
  }

  /** A tick that leaves the body at rest leaves it able to jump. */
  lemma RestCanJump(s: Vertical, floor: i64, dt: i64)
    requires AtRest(Step(s, floor, dt).0, floor)
    ensures TryJump(Step(s, floor, dt).0, floor).1
  {
    hide SetFlag, ClearFlag, Bit, GravityStep, SaturatingMul;
  }

  /** However a flight went, once its budget is spent the body can jump again. */
  lemma JumpsAgain(s: Vertical, floor: i64, dt: i64, n: nat)
    requires dt != 0 && n > 0 && n >= FlightBudget(s, floor, dt)
    ensures TryJump(Fly(s, floor, dt, n), floor).1
    ensures s.y >= floor ==> Landed(Fly(s, floor, dt, n), floor)
  {
    EveryFlightEnds(s, floor, dt, n);
    FlyStep(s, floor, dt, n);
    hide FlightBudget, Fly;
    RestCanJump(Fly(s, floor, dt, n - 1), floor, dt);
    RestIsLanding(Fly(s, floor, dt, n), floor);
  }

  lemma RestIsLanding(s: Vertical, floor: i64)
    ensures AtRest(s, floor) && s.y == floor && TryJump(s, floor).1 ==> Landed(s, floor)
  {
    hide SetFlag, ClearFlag, Bit;
  }

  lemma {:induction false} FrozenInTheAir(s: Vertical, floor: i64, n: nat)
    requires s.y > floor
    ensures var s' := Fly(s, floor, 0, n); s'.y == s.y && !AtRest(s', floor)
  {
    if n > 0 {
      FrozenInTheAir(s, floor, n - 1);
      GravityActs(0);
      hide GravityStep, SetFlag, ClearFlag;
    }
  }

  /** Without time a body at or below the floor lands where it stands. */
  lemma LandsWithoutTime(s: Vertical, floor: i64)
    requires s.y <= floor
    ensures AtRest(Fly(s, floor, 0, 1), floor)
  {
    FlyStep(s, floor, 0, 0);
    FlyStep(s, floor, 0, 1);
    if !AtRest(s, floor) { LandingClears(s, floor, 0); }
    hide GravityStep, SetFlag, ClearFlag, Fly;
  }

  /** The condition is exact: a body comes to rest if and only if time passes or it is not above the floor. */
  lemma EndsExactlyWhenTimePasses(s: Vertical, floor: i64, dt: i64)
    ensures (exists n: nat :: AtRest(Fly(s, floor, dt, n), floor)) <==> dt != 0 || s.y <= floor
  {
    hide Step, AtRest, Budget, Fly;
    if dt != 0 {
      EveryFlightEnds(s, floor, dt, FlightBudget(s, floor, dt));
    } else if s.y <= floor {
      LandsWithoutTime(s, floor);
    } else {
      forall n: nat
        ensures !AtRest(Fly(s, floor, dt, n), floor)
      {
        FrozenInTheAir(s, floor, n);
      }
    }
  }

  // ----- Energy over a flight -----

  /** What n airborne ticks cost. */
  function Paid(dt: i64, n: nat): int { n * TickCost(dt) }

  lemma PaidIs(dt: i64, n: nat)
    ensures Paid(dt, n) == n * TickCost(dt)
  {
    hide TickCost;
  }

  lemma PaidStep(dt: i64, n: nat)
    ensures Paid(dt, n + 1) == Paid(dt, n) + TickCost(dt)
  {
    hide TickCost;
  }

  lemma CostPositive(dt: i64)
    requires dt > 0
    ensures GravityStep(dt) >= 1 && TickCost(dt) > 0
  {
    GravityActs(dt);
  }

  /** The first n ticks of the flight do not saturate. */
  ghost predicate UnsaturatedFlight(s: Vertical, floor: i64, dt: i64, n: nat) {
    forall m: nat :: m < n ==> Unsaturated(Fly(s, floor, dt, m), dt)
  }

  lemma UnsaturatedSoFar(s: Vertical, floor: i64, dt: i64, n: nat)
    requires UnsaturatedFlight(s, floor, dt, n + 1)
    ensures UnsaturatedFlight(s, floor, dt, n) && Unsaturated(Fly(s, floor, dt, n), dt)
  {
    hide Unsaturated, Fly;
  }

  lemma MovingTick(s: Vertical, floor: i64, dt: i64)
    requires dt >= 0 && GravityStep(dt) >= 1 && !AtRest(s, floor) && Unsaturated(s, dt) && s.y >= floor
    ensures var s' := Step(s, floor, dt).0;
            || (AtRest(s', floor) && 0 == Energy(s', floor, dt) <= Energy(s, floor, dt))
            || Energy(s', floor, dt) <= Energy(s, floor, dt) - TickCost(dt)
  {
    EnergyDrops(s, floor, dt);
    EnergyNonNegative(s, floor, dt);
    var s' := Step(s, floor, dt).0;
    RestIsFinal(s', floor, dt);
    LandedHasNoEnergy(s', floor, dt);
  }

  lemma LandedHasNoEnergy(s: Vertical, floor: i64, dt: i64)
    ensures Landed(s, floor) ==> Energy(s, floor, dt) == 0
  {
  }

  lemma EnergyNonNegative(s: Vertical, floor: i64, dt: i64)
    requires dt >= 0 && GravityStep(dt) >= 0 && s.y >= floor
    ensures Energy(s, floor, dt) >= 0
  {
    SquareTerm(s.v, dt);
    ScaleMono(0, s.y - floor, 2 * GravityStep(dt) * SCALE);
  }

  /** After n ticks the body is at rest or has paid for them out of its energy. */
  lemma {:induction false} FlightPays(s: Vertical, floor: i64, dt: i64, n: nat)
    requires s.y >= floor && dt > 0 && UnsaturatedFlight(s, floor, dt, n)
    ensures var s' := Fly(s, floor, dt, n); var e := Energy(s, floor, dt);
            && s'.y >= floor
            && 0 <= Energy(s', floor, dt) <= e
            && (AtRest(s', floor) || Energy(s', floor, dt) <= e - Paid(dt, n))
  {
    hide *;
    CostPositive(dt);
    if n == 0 {
      FlyStep(s, floor, dt, 0);
      PaidIs(dt, 0);
      EnergyNonNegative(s, floor, dt);
    } else {
      UnsaturatedSoFar(s, floor, dt, n - 1);
      FlightPays(s, floor, dt, n - 1);
      FlyStep(s, floor, dt, n);
      PaidStep(dt, n - 1);
      var before := Fly(s, floor, dt, n - 1);
      RestIsFinal(before, floor, dt);
      EnergyNonNegative(Fly(s, floor, dt, n), floor, dt);
      if !AtRest(before, floor) { MovingTick(before, floor, dt); }
    }
  }

  /**
   Absent saturation the body never goes below the floor nor above its apex, and after n ticks
   it is at rest or has paid n tick costs of g^2 * dt out of its energy.
   */
  lemma FlightLosesEnergy(s: Vertical, floor: i64, dt: i64, n: nat)
    requires s.y >= floor && dt > 0 && UnsaturatedFlight(s, floor, dt, n)
    ensures var s' := Fly(s, floor, dt, n); var e := Energy(s, floor, dt);
            && GravityStep(dt) >= 1
            && floor <= s'.y <= floor + Apex(dt, e)
            && 0 <= Energy(s', floor, dt) <= e
            && (AtRest(s', floor) || Energy(s', floor, dt) <= e - n * TickCost(dt))
  {
    hide *;
    CostPositive(dt);
    FlightPays(s, floor, dt, n);
    HeightBound(Fly(s, floor, dt, n), floor, dt, Energy(s, floor, dt));
    assert Paid(dt, n) == n * TickCost(dt) by { PaidIs(dt, n); }
  }

  lemma BudgetRunsOut(e: int, k: int, n: int)
    requires e >= 0 && k > 0 && n > e / k
    ensures e - n * k < 0
  {
    MulStep(k, e / k, n);
    assert k * n == n * k;
  }

  /** Absent saturation the flight is over after energy / (g^2 * dt) + 1 ticks. */
  lemma EnergyEndsFlight(s: Vertical, floor: i64, dt: i64, n: nat)
    requires s.y >= floor && dt > 0 && UnsaturatedFlight(s, floor, dt, n)
    requires TickCost(dt) > 0 && n > Energy(s, floor, dt) / TickCost(dt)
    ensures AtRest(Fly(s, floor, dt, n), floor)
  {
    GravityActs(dt);
    hide GravityStep, Energy, TickCost, Unsaturated;
    EnergyNonNegative(s, floor, dt);
    FlightLosesEnergy(s, floor, dt, n);
    BudgetRunsOut(Energy(s, floor, dt), TickCost(dt), n);
  }

  /** With headroom for its starting energy no tick of a flight saturates. */
  lemma {:induction false} HeadroomFlight(s: Vertical, floor: i64, dt: i64, speed: int, n: nat)
    requires s.y >= floor && Headroom(floor, dt, Energy(s, floor, dt), speed)
    ensures UnsaturatedFlight(s, floor, dt, n)
  {
    assert dt > 0;
    hide Headroom, Energy, Unsaturated, Fly;
    if n > 0 {
      HeadroomFlight(s, floor, dt, speed, n - 1);
      FlightLosesEnergy(s, floor, dt, n - 1);
      HeadroomKeepsUnsaturated(Fly(s, floor, dt, n - 1), floor, dt, Energy(s, floor, dt), speed);
    }
  }

  // ----- The standard jump -----

  /** The velocity lost in a standard tick. */
  const LOST: int := 2105962043

  /** No standard jump gains more height. */
  const ARC_TOP: int := 4946022599

  lemma StandardStep()
    ensures GravityStep(TICK) == LOST
  {
    assert STANDARD_GRAVITY == 42119241033;
  }

  /** How far a standard jump has risen after n ticks, before any landing. */
  function Rise(n: nat): int {
    if n == 0 then 0 else Rise(n - 1) + (JUMP_INITIAL_VELOCITY - n * LOST) * TICK / SCALE
  }

  lemma RiseStep(n: nat)
    ensures Rise(n) == if n == 0 then 0 else Rise(n - 1) + (JUMP_INITIAL_VELOCITY - n * LOST) * TICK / SCALE
  {
  }

  lemma RiseTo5()
    ensures Rise(1) == 968443718 && Rise(2) == 1831589334 && Rise(3) == 2589436848
    ensures Rise(4) == 3241986260 && Rise(5) == 3789237571
  {
    RiseStep(0);
    hide Rise;
    RiseStep(1);
    RiseStep(2);
    RiseStep(3);
    RiseStep(4);
    RiseStep(5);
  }

  lemma RiseTo10()
    ensures Rise(6) == 4231190780 && Rise(7) == 4567845887 && Rise(8) == 4799202892
    ensures Rise(9) == 4925261796 && Rise(10) == 4946022598
  {
    RiseTo5();
    hide Rise;
    RiseStep(6);
    RiseStep(7);
    RiseStep(8);
    RiseStep(9);
    RiseStep(10);
  }

  lemma RiseTo15()
    ensures Rise(11) == 4861485298 && Rise(12) == 4671649896 && Rise(13) == 4376516393
    ensures Rise(14) == 3976084788 && Rise(15) == 3470355081
  {
    RiseTo10();
    hide Rise;
    RiseStep(11);
    RiseStep(12);
    RiseStep(13);
    RiseStep(14);
    RiseStep(15);
  }

  lemma RiseTo20()
    ensures Rise(16) == 2859327272 && Rise(17) == 2143001362 && Rise(18) == 1321377350
    ensures Rise(19) == 394455236 && Rise(20) == -637764980
  {
    RiseTo15();
    hide Rise;
    RiseStep(16);
    RiseStep(17);
    RiseStep(18);
    RiseStep(19);
    RiseStep(20);
  }

  /** It is above its start through tick 19 and more than the reach below it at tick 20. */
  lemma RiseTable(n: nat)
    requires n <= 20
    ensures n == 20 ==> Rise(n) < -JUMP_REACH
    ensures 0 < n < 20 ==> 0 < Rise(n) < ARC_TOP
  {
    hide Rise;
    RiseTo5();
    RiseTo10();
    RiseTo15();
    RiseTo20();
  }

  /** One tick of the jump. */
  lemma ArcTick(s: Vertical, floor: i64, n: nat)
    requires s.y >= floor && n < 20 && s.v == JUMP_INITIAL_VELOCITY - n * LOST && !AtRest(s, floor)
    ensures var s' := Step(s, floor, TICK).0; var rise := (JUMP_INITIAL_VELOCITY - (n + 1) * LOST) * TICK / SCALE;
            || AtRest(s', floor)
            || (s'.v == JUMP_INITIAL_VELOCITY - (n + 1) * LOST && floor < s'.y <= s.y + rise
                && s'.airborneTicks == Min(s.airborneTicks + 1, 0xFFFF))
    ensures var s' := Step(s, floor, TICK).0; var rise := (JUMP_INITIAL_VELOCITY - (n + 1) * LOST) * TICK / SCALE;
            floor < s.y + rise <= I64_MAX ==> s'.y == s.y + rise
  {
    StandardStep();
    LandingClears(s, floor, TICK);
    hide GravityStep, SetFlag, ClearFlag;
  }

  lemma JumpStarts(s: Vertical, floor: i64)
    requires TryJump(s, floor).1
    ensures var s1 := TryJump(s, floor).0;
            s1.y == s.y && s1.v == JUMP_INITIAL_VELOCITY && s1.airborneTicks == 1 && !AtRest(s1, floor)
  {
    hide SetFlag, ClearFlag, Bit;
  }

  /** After n <= 20 ticks a standard jump rests, or has gained no more height than Rise(n). */
  lemma {:induction false} JumpArc(s: Vertical, floor: i64, n: nat)
    requires s.y >= floor && TryJump(s, floor).1 && n <= 20
    ensures var s' := Fly(TryJump(s, floor).0, floor, TICK, n);
            && s'.y >= floor
            && (AtRest(s', floor)
                || (s'.v == JUMP_INITIAL_VELOCITY - n * LOST && s'.y <= s.y + Rise(n) && s'.airborneTicks == n + 1))
  {
    hide Step, AtRest, TryJump, Rise, Fly;
    var s1 := TryJump(s, floor).0;
    JumpStarts(s, floor);
    FlyStep(s1, floor, TICK, n);
    RiseStep(n);
    if n > 0 {
      JumpArc(s, floor, n - 1);
      var before := Fly(s1, floor, TICK, n - 1);
      RestIsFinal(before, floor, TICK);
      if !AtRest(before, floor) { ArcTick(before, floor, n - 1); }
    }
  }

  lemma {:induction false} RestLasts(s: Vertical, floor: i64, dt: i64, m: nat, n: nat)
    requires s.y >= floor && m <= n && Fly(s, floor, dt, m).y >= floor && AtRest(Fly(s, floor, dt, m), floor)
    ensures Fly(s, floor, dt, n).y >= floor && AtRest(Fly(s, floor, dt, n), floor)
    decreases n
  {
    if m < n {
      RestLasts(s, floor, dt, m, n - 1);
      RestIsFinal(Fly(s, floor, dt, n - 1), floor, dt);
    }
  }

  /** At 20 ticks a second every jump, over every floor, rests from tick 20 on and never trips the watchdog. */
  lemma StandardJumpLands(s: Vertical, floor: i64, n: nat)
    requires s.y >= floor && TryJump(s, floor).1
    ensures var s' := Fly(TryJump(s, floor).0, floor, TICK, n);
            && (n >= 20 ==> AtRest(s', floor))
            && Step(s', floor, TICK).1 == NoViolation
  {
    hide Step, TryJump, Rise, Fly;
    var s1 := TryJump(s, floor).0;
    JumpArc(s, floor, Min(n, 20));
    RiseTable(20);
    JumpStarts(s, floor);
    JumpReach(s, floor);
    if n >= 20 { RestLasts(s1, floor, TICK, 20, n); }
    StepShape(Fly(s1, floor, TICK, n), floor, TICK);
  }

  /** From tick 20 of a standard jump on the body has landed and can jump again. */
  lemma StandardJumpRepeats(s: Vertical, floor: i64, n: nat)
    requires s.y >= floor && TryJump(s, floor).1 && n >= 20
    ensures var s' := Fly(TryJump(s, floor).0, floor, TICK, n); Landed(s', floor) && TryJump(s', floor).1
  {
    hide TryJump, Fly, Step;
    var s1 := TryJump(s, floor).0;
    JumpStarts(s, floor);
    JumpArc(s, floor, 20);
    RiseTable(20);
    JumpReach(s, floor);
    RestLasts(s1, floor, TICK, 20, n);
    FlyStep(s1, floor, TICK, n);
    RestCanJump(Fly(s1, floor, TICK, n - 1), floor, TICK);
    RestIsLanding(Fly(s1, floor, TICK, n), floor);
  }

  lemma JumpReach(s: Vertical, floor: i64)
    requires TryJump(s, floor).1
    ensures s.y <= floor + JUMP_REACH
  {
  }

  /** Where the number range allows the arc, the landing is at tick 20 and not before. */
  lemma {:induction false} JumpStaysUp(s: Vertical, floor: i64, n: nat)
    requires s.y >= floor && TryJump(s, floor).1 && n < 20 && s.y + ARC_TOP <= I64_MAX
    ensures var s' := Fly(TryJump(s, floor).0, floor, TICK, n);
            !AtRest(s', floor) && s'.y == s.y + Rise(n) && s'.v == JUMP_INITIAL_VELOCITY - n * LOST
  {
    hide Step, TryJump, Rise, Fly;
    var s1 := TryJump(s, floor).0;
    JumpStarts(s, floor);
    FlyStep(s1, floor, TICK, n);
    RiseStep(n);
    RiseTable(n);
    if n > 0 {
      JumpStaysUp(s, floor, n - 1);
      RiseTable(n - 1);
      RiseStep(0);
      ArcTick(Fly(s1, floor, TICK, n - 1), floor, n - 1);
    }
  }

  /** From a successful jump until the landing every further jump is refused. */
  lemma {:induction false} NoJumpInFlight(s: Vertical, floor: i64, dt: i64, n: nat)
    requires s.y >= floor && TryJump(s, floor).1
    requires var s1 := TryJump(s, floor).0;
             forall m :: 0 < m <= n ==> !Landed(Fly(s1, floor, dt, m), floor)
    ensures var s' := Fly(TryJump(s, floor).0, floor, dt, n);
            s'.y >= floor && s'.airborneTicks > 0 && TryJump(s', floor) == (s', false)
  {
    var s1 := TryJump(s, floor).0;
    if n > 0 {
      NoJumpInFlight(s, floor, dt, n - 1);
      StepShape(Fly(s1, floor, dt, n - 1), floor, dt);
      assert !Landed(Fly(s1, floor, dt, n), floor);
    }
  }
}
