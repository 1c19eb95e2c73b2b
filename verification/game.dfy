/** The part of orbit.py's MyGame window that reacts to the mouse: the star and
    the two mass buttons built in setup, with on_mouse_press / on_mouse_release
    forwarding to the button protocol. The orbiting planet and the frame update
    are not part of this model. */
module OrbitGame {
  import opened StarMass
  import opened Buttons

  datatype Event = MousePress(x: real, y: real) | MouseRelease(x: real, y: real)

  datatype Game = Game(star: Star, buttons: seq<Button>)

  /** ButtonIncreaseMassSun(60, 570, ...) and ButtonDecreaseMassSun(60, 515, ...),
      both 100 wide and 40 high, in that list order. */
  const IncreaseButton: Button := Button(60.0, 570.0, 100.0, 40.0, false, IncreaseMassSun)
  const DecreaseButton: Button := Button(60.0, 515.0, 100.0, 40.0, false, DecreaseMassSun)

  const InitialGame: Game := Game(InitialStar, [IncreaseButton, DecreaseButton])

  /** One mouse event. A press only changes pressed flags; a release (whose
      coordinates the source ignores) un-presses every button, never moves the
      star, and changes its mass only through the fired actions. */
  function Step(g: Game, e: Event): (h: Game)
    ensures |h.buttons| == |g.buttons|
    ensures h.star.x == g.star.x && h.star.y == g.star.y
    ensures e.MousePress? ==> h.star == g.star
    ensures e.MousePress? ==> forall k :: 0 <= k < |g.buttons| ==>
      h.buttons[k] == g.buttons[k].(pressed := h.buttons[k].pressed)
    ensures e.MouseRelease? ==> forall k :: 0 <= k < |h.buttons| ==> !h.buttons[k].pressed
    ensures e.MouseRelease? && (forall k :: 0 <= k < |g.buttons| ==> !g.buttons[k].pressed) ==> h == g
  {
    match e
    case MousePress(x, y) => g.(buttons := Press(x, y, g.buttons))
    case MouseRelease(_, _) =>
      var r := Release(g.buttons, g.star);
      ActionsKeepPosition(g.star, ActionsAt(g.buttons, r.fired));
      Game(r.star, r.buttons)
  }

  /** A sequence of mouse events, first element first. */
  function Run(g: Game, es: seq<Event>): Game
    decreases |es|
  {
    if |es| == 0 then g else Run(Step(g, es[0]), es[1..])
  }

  /** The two buttons keep their geometry and kind (only pressed flags vary),
      and the star stays in the lockstep StarMass.Reachable describes. */
  predicate ReachableGame(g: Game)
  {
    && StarMass.Reachable(g.star)
    && |g.buttons| == 2
    && g.buttons[0] == IncreaseButton.(pressed := g.buttons[0].pressed)
    && g.buttons[1] == DecreaseButton.(pressed := g.buttons[1].pressed)
  }

  lemma StepPreservesReachable(g: Game, e: Event)
    requires ReachableGame(g)
    ensures ReachableGame(Step(g, e))
  {
    if e.MouseRelease? {
      var r := Release(g.buttons, g.star);
      ActionsPreserveReachable(g.star, ActionsAt(g.buttons, r.fired));
    }
  }

  /** From the initial window, whatever the mouse does, the star stays at the
      centre, its mass never goes negative, its radius never reaches the floor
      of decrease_sun_mass, and radius and mass move together. */
  lemma {:induction false} RunPreservesReachable(g: Game, es: seq<Event>)
    requires ReachableGame(g)
    ensures ReachableGame(Run(g, es))
    ensures Run(g, es).star.m >= 0
    ensures Run(g, es).star.r > StarSizeDecrease
    ensures Run(g, es).star.m == (Run(g, es).star.r - (StarSize - 10)) * MassStep
    decreases |es|
  {
    if |es| > 0 {
      StepPreservesReachable(g, es[0]);
      RunPreservesReachable(Step(g, es[0]), es[1..]);
    }
  }

  lemma InitialIsReachable()
    ensures ReachableGame(InitialGame)
  {
  }

  /** The two buttons of the game do not overlap, so one press presses at most one. */
  lemma ButtonsDisjoint(x: real, y: real)
    ensures !(InRect(IncreaseButton, x, y) && InRect(DecreaseButton, x, y))
  {
  }

  /** Pressing the two unpressed game buttons at (x, y) and then releasing
      fires the one under the point, if any, and applies its action once. */
  lemma ClickFires(bs: seq<Button>, x: real, y: real, s: Star)
    requires bs == [IncreaseButton, DecreaseButton]
    ensures Release(Press(x, y, bs), s).buttons == bs
    ensures Release(Press(x, y, bs), s).fired ==
      if InRect(IncreaseButton, x, y) then [0]
      else if InRect(DecreaseButton, x, y) then [1]
      else []
    ensures Release(Press(x, y, bs), s).star ==
      if InRect(IncreaseButton, x, y) then IncreaseMass(s)
      else if InRect(DecreaseButton, x, y) then DecreaseMass(s)
      else s
  {
    var p := Press(x, y, bs);
    var inc := InRect(IncreaseButton, x, y);
    var dec := InRect(DecreaseButton, x, y);
    ButtonsDisjoint(x, y);
    assert p == [IncreaseButton.(pressed := inc), DecreaseButton.(pressed := dec)];
    assert Release(p, s).buttons == bs;
    if inc {
      var s1 := IncreaseMass(s);
      assert ReleaseFrom(p, 2, s1) == Released([], [], s1);
      assert ReleaseFrom(p, 1, s1).fired == [] && ReleaseFrom(p, 1, s1).star == s1;
      assert ReleaseFrom(p, 0, s).fired == [0] && ReleaseFrom(p, 0, s).star == s1;
    } else if dec {
      var s1 := DecreaseMass(s);
      assert ReleaseFrom(p, 2, s1) == Released([], [], s1);
      assert ReleaseFrom(p, 1, s).fired == [1] && ReleaseFrom(p, 1, s).star == s1;
      assert ReleaseFrom(p, 0, s).fired == [1] && ReleaseFrom(p, 0, s).star == s1;
    } else {
      assert ReleaseFrom(p, 2, s) == Released([], [], s);
      assert ReleaseFrom(p, 1, s).fired == [] && ReleaseFrom(p, 1, s).star == s;
      assert ReleaseFrom(p, 0, s).fired == [] && ReleaseFrom(p, 0, s).star == s;
    }
  }

  /** A click (press then release, release coordinates arbitrary) with nothing
      pressed beforehand applies the action of the button under the press
      point once, or nothing when the point is outside both, and leaves no
      button pressed. */
  lemma Click(g: Game, x: real, y: real, x': real, y': real)
    requires ReachableGame(g)
    requires !g.buttons[0].pressed && !g.buttons[1].pressed
    ensures Run(g, [MousePress(x, y), MouseRelease(x', y')]).buttons == g.buttons
    ensures Run(g, [MousePress(x, y), MouseRelease(x', y')]).star ==
      if InRect(IncreaseButton, x, y) then IncreaseMass(g.star)
      else if InRect(DecreaseButton, x, y) then DecreaseMass(g.star)
      else g.star
  {
    var es := [MousePress(x, y), MouseRelease(x', y')];
    assert g.buttons == [IncreaseButton, DecreaseButton];
    var g1 := Step(g, es[0]);
    var g2 := Step(g1, es[1]);
    assert es[1..] == [es[1]] && es[1..][1..] == [];
    assert Run(g1, [es[1]]) == Run(g2, []) == g2;
    assert Run(g, es) == g2;
    ClickFires(g.buttons, x, y, g.star);
  }
}
