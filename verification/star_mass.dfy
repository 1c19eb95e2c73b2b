/** The star whose mass the two on-screen buttons adjust (orbit.py, MyGame.star
    and MyGame.increase_sun_mass / decrease_sun_mass).

    Only the fields the mass actions touch are kept: the position, the radius
    (an integer in the source) and the mass. The mass becomes a double after the
    first action; every value it can take from the initial star is an integer
    multiple of the step, which a double holds exactly while the mass stays
    below 2^53, so `int` is exact in that range. */
module StarMass {

  const StarCenterX: real := 300.0
  const StarCenterY: real := 300.0
  const StarMassInit: int := 19_890_000_000_000
  const StarSize: int := 15
  const StarSizeIncrease: int := 1
  const StarSizeDecrease: int := 1

  /** STAR_MASS * 0.1, which rounds to exactly this integer in double precision. */
  const MassStep: int := 1_989_000_000_000

  datatype Star = Star(x: real, y: real, r: int, m: int)

  /** The star as the game creates it. */
  const InitialStar: Star := Star(StarCenterX, StarCenterY, StarSize, StarMassInit)

  /** The two actions a mass button can trigger. */
  datatype Action = Increase | Decrease

  function Max(a: int, b: int): int { if a >= b then a else b }

  /** increase_sun_mass: one step more mass, one unit more radius, no upper bound. */
  function IncreaseMass(s: Star): (t: Star)
    ensures t.m == s.m + MassStep
    ensures t.r == s.r + StarSizeIncrease
    ensures t.x == s.x && t.y == s.y
  {
    s.(m := s.m + MassStep, r := s.r + StarSizeIncrease)
  }

  /** decrease_sun_mass: subtract one step; a negative result is clamped to zero
      and the method returns before the radius is touched; otherwise the radius
      shrinks by one but not below StarSizeDecrease. */
  function DecreaseMass(s: Star): (t: Star)
    ensures t.m >= 0
    ensures t.m == Max(0, s.m - MassStep)
    ensures s.m < MassStep ==> t == s.(m := 0)
    ensures s.m >= MassStep ==> t.r == Max(s.r - 1, StarSizeDecrease)
    ensures s.m >= MassStep ==> t.r >= StarSizeDecrease
    ensures t.x == s.x && t.y == s.y
  {
    var m := s.m - MassStep;
    if m < 0 then
      s.(m := 0)
    else
      var r := s.r - StarSizeDecrease;
      if r < StarSizeDecrease then s.(m := m, r := StarSizeDecrease)
      else s.(m := m, r := r)
  }

  function Apply(a: Action, s: Star): Star
  {
    match a
    case Increase => IncreaseMass(s)
    case Decrease => DecreaseMass(s)
  }

  /** The actions applied one after the other, first element first. */
  function ApplyAll(s: Star, acts: seq<Action>): Star
    decreases |acts|
  {
    if |acts| == 0 then s else ApplyAll(Apply(acts[0], s), acts[1..])
  }

  function Repeat(a: Action, n: nat): (acts: seq<Action>)
    ensures |acts| == n
    ensures forall k :: 0 <= k < n ==> acts[k] == a
  {
    if n == 0 then [] else [a] + Repeat(a, n - 1)
  }

  /** Neither action moves the star. */
  lemma {:induction false} ActionsKeepPosition(s: Star, acts: seq<Action>)
    ensures ApplyAll(s, acts).x == s.x
    ensures ApplyAll(s, acts).y == s.y
    decreases |acts|
  {
    if |acts| > 0 {
      ActionsKeepPosition(Apply(acts[0], s), acts[1..]);
    }
  }

  /** n increases add exactly n steps of mass and n units of radius. */
  lemma {:induction false} IncreaseRepeated(s: Star, n: nat)
    ensures ApplyAll(s, Repeat(Increase, n)).m == s.m + n * MassStep
    ensures ApplyAll(s, Repeat(Increase, n)).r == s.r + n * StarSizeIncrease
    ensures ApplyAll(s, Repeat(Increase, n)).x == s.x
    ensures ApplyAll(s, Repeat(Increase, n)).y == s.y
    decreases n
  {
    if n > 0 {
      var acts := Repeat(Increase, n);
      assert acts[1..] == Repeat(Increase, n - 1);
      IncreaseRepeated(IncreaseMass(s), n - 1);
    }
  }

  /** n decreases from a non-negative mass leave exactly max(0, m - n * step):
      once clamped the mass stays at zero. */
  lemma {:induction false} DecreaseRepeated(s: Star, n: nat)
    requires s.m >= 0
    ensures ApplyAll(s, Repeat(Decrease, n)).m == Max(0, s.m - n * MassStep)
    ensures ApplyAll(s, Repeat(Decrease, n)).x == s.x
    ensures ApplyAll(s, Repeat(Decrease, n)).y == s.y
    decreases n
  {
    if n > 0 {
      var acts := Repeat(Decrease, n);
      assert acts[1..] == Repeat(Decrease, n - 1);
      DecreaseRepeated(DecreaseMass(s), n - 1);
    }
  }

  /** Increase then decrease restores the star exactly when the mass was not
      negative and the radius was at least the floor. */
  lemma IncreaseThenDecrease(s: Star)
    ensures DecreaseMass(IncreaseMass(s)) == s <==> s.m >= 0 && s.r >= StarSizeDecrease
  {
  }

  /** Decrease then increase restores the star only when the decrease neither
      clamped the mass nor hit the radius floor. */
  lemma DecreaseThenIncrease(s: Star)
    ensures IncreaseMass(DecreaseMass(s)) == s <==> s.m >= MassStep && s.r > StarSizeDecrease
  {
  }

  /** A concrete star on which decrease-then-increase is not an inverse: the
      clamp throws away the mass below one step. */
  lemma DecreaseThenIncreaseLosesMass()
    ensures var s := Star(StarCenterX, StarCenterY, StarSize, MassStep / 2);
            IncreaseMass(DecreaseMass(s)).m == MassStep && IncreaseMass(DecreaseMass(s)) != s
  {
  }

  /** The states the game can reach: the star sits at the screen centre and its
      radius and mass move in lockstep, r == 5 + m / MassStep, with r >= 5. */
  predicate Reachable(s: Star)
  {
    && s.x == StarCenterX && s.y == StarCenterY
    && s.r >= StarSize - 10
    && s.m == (s.r - (StarSize - 10)) * MassStep
  }

  lemma InitialReachable()
    ensures Reachable(InitialStar)
  {
  }

  /** Each action keeps the lockstep: in particular a decrease from a reachable
      star never hits the radius floor, and never clamps a non-zero mass. */
  lemma ActionPreservesReachable(a: Action, s: Star)
    requires Reachable(s)
    ensures Reachable(Apply(a, s))
    ensures a == Decrease && s.m > 0 ==> Apply(a, s).r == s.r - StarSizeDecrease
    ensures a == Decrease && s.m == 0 ==> Apply(a, s) == s
  {
  }

  lemma {:induction false} ActionsPreserveReachable(s: Star, acts: seq<Action>)
    requires Reachable(s)
    ensures Reachable(ApplyAll(s, acts))
    ensures ApplyAll(s, acts).m >= 0
    ensures ApplyAll(s, acts).r > StarSizeDecrease
    decreases |acts|
  {
    if |acts| > 0 {
      ActionPreservesReachable(acts[0], s);
      ActionsPreserveReachable(Apply(acts[0], s), acts[1..]);
    }
  }
}
