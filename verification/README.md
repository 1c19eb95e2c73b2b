# Orbit: star-mass buttons as a state machine

`orbit.py` draws a planet orbiting a star. Two on-screen buttons change the
star's mass. This project models that mouse-driven part of the program and
proves properties about it:

- **StarMass** (`star_mass.dfy`) models the star's position, integer radius
  and mass. It also models `MyGame.increase_sun_mass` and
  `MyGame.decrease_sun_mass`. One mass step is `STAR_MASS * 0.1`, which is
  exactly `1 989 000 000 000` in double precision.
- **Buttons** (`buttons.dfy`) models a `TextButton` with its centre, size,
  pressed flag and kind. The kind is a plain button or one of the two mass
  buttons. The module also models the hit test and the press/release loops
  `check_mouse_press_for_buttons` and `check_mouse_release_for_buttons`.
- **OrbitGame** (`game.dfy`) models the window as a star plus a list of
  buttons. `MyGame.setup` creates the two buttons at (60, 570) and (60, 515),
  each 100 × 40. `on_mouse_press` and `on_mouse_release` are modelled as
  `Step`, and a sequence of events as `Run`.

Every operation is a pure function on immutable values. A release walks the
buttons in list order. It un-presses each pressed button. If that button is a
mass button, its action is applied to the star straight away. The result
records which indices fired, in firing order, so the model can state that each
pressed mass button fires exactly once.

A decrease that would make the mass negative sets it to zero and returns early,
leaving the radius untouched (orbit.py:346-348). The radius floor of
`STAR_SIZE_DECREASE` applies only when the mass did not clamp
(orbit.py:350-352).

The proofs also show something about the running game. From the initial star
(radius 15, mass 10 steps), every reachable state has
`mass == (radius - 5) * step`. So the radius never drops below 5. The floor in
`decrease_sun_mass` never takes effect, and a decrease at mass 0 changes
nothing.

## Model

| member | source | states |
|---|---|---|
| StarMass.IncreaseMass | orbit.py:339-341 | one increase adds exactly one mass step (STAR_MASS * 0.1) and STAR_SIZE_INCREASE to the radius, with no upper bound, and keeps the position |
| StarMass.IncreaseRepeated | orbit.py:339-341 | n presses of increase add exactly n mass steps and n units of radius, with no upper bound, and leave the star's position alone |
| StarMass.DecreaseMass | orbit.py:344-352 | afterwards the mass is max(0, m - step), so it is never negative; if the subtraction would go below zero, only the mass changes (to 0); otherwise the radius becomes max(r - 1, STAR_SIZE_DECREASE), including when the mass lands exactly on 0; the position never changes |
| StarMass.DecreaseRepeated | orbit.py:344-348 | n decreases from a non-negative mass leave exactly max(0, m - n * step); once clamped, the mass stays at 0 |
| StarMass.IncreaseThenDecrease | orbit.py:339-352 | increase then decrease gives back the original star if and only if its mass was non-negative and its radius was at least STAR_SIZE_DECREASE |
| StarMass.DecreaseThenIncrease | orbit.py:339-352 | decrease then increase gives back the original star if and only if the mass was at least one step and the radius was above the floor, i.e. neither clamp fired |
| StarMass.DecreaseThenIncreaseLosesMass | orbit.py:344-348 | a concrete star with half a step of mass: decrease then increase leaves one full step, not the original mass |
| StarMass.ActionsKeepPosition | orbit.py:339-352 | no sequence of mass actions moves the star |
| StarMass.InitialReachable | orbit.py:9-15 | the initial star (centre 300/300, radius 15, mass STAR_MASS) satisfies the relation mass == (radius - 5) * step |
| StarMass.ActionPreservesReachable | orbit.py:339-352 | each action preserves that relation; from such a star, a decrease at positive mass shrinks the radius by exactly 1, and a decrease at mass 0 changes nothing |
| StarMass.ActionsPreserveReachable | orbit.py:339-352 | any sequence of actions preserves the relation, so the mass stays non-negative and the radius stays above the floor |
| Buttons.OnPress | orbit.py:184-185 | on_press leaves the button pressed and changes no other field |
| Buttons.OnRelease | orbit.py:187-188 | the base on_release leaves the button unpressed and changes no other field |
| Buttons.Hits | orbit.py:194-201 | the four early exits of the hit test accept exactly the points of the closed rectangle cx ± w/2, cy ± h/2, edges included |
| Buttons.Press | orbit.py:191-202 | after a press at (x, y), a button is pressed exactly when it was already pressed or its closed rectangle holds the point; overlapping buttons are all pressed; nothing is un-pressed; nothing but the flag changes |
| Buttons.PressIdempotent | orbit.py:191-202 | pressing twice at the same point gives the same buttons as pressing once |
| Buttons.ReleaseFrom | orbit.py:207-209 | the release loop from index i on un-presses every button and changes nothing else; the fired indices are strictly increasing, lie in the walked range, and are exactly the pressed mass buttons |
| Buttons.ReleaseFromApplies | orbit.py:217-229 | the star after the loop equals the star before it with the fired buttons' actions applied in list order |
| Buttons.Release | orbit.py:204-209 | after a release no button is pressed, whatever the coordinates; only the flags change; exactly the pressed mass buttons fire, in list order, and their actions are applied to the star in that order |
| Buttons.ReleaseFiresOnce | orbit.py:208-209 | on release, a button's action fires exactly once if it is a pressed mass button and never otherwise |
| Buttons.ReleaseTwice | orbit.py:207-209 | a second release fires nothing and leaves buttons and star unchanged |
| Buttons.PressThenRelease | orbit.py:191-209 | a press then a release leaves every button unpressed, and fires exactly the mass buttons that were pressed before or that contain the press point |
| OrbitGame.Step | orbit.py:326-336 | a press event keeps the star and changes nothing but each button's pressed flag; a release event leaves nothing pressed and never moves the star; a release with nothing pressed changes nothing |
| OrbitGame.StepPreservesReachable | orbit.py:326-336 | every mouse event keeps the two buttons' geometry and kind and keeps the mass/radius relation |
| OrbitGame.RunPreservesReachable | orbit.py:326-352 | after any sequence of mouse events from a reachable window, the mass is non-negative, the radius stays above STAR_SIZE_DECREASE, and mass == (radius - 5) * step |
| OrbitGame.InitialIsReachable | orbit.py:273-277 | the window as set up (star plus increase button and decrease button in that order) is reachable |
| OrbitGame.ButtonsDisjoint | orbit.py:273-277 | the rectangles of the two mass buttons do not overlap, so a single press presses at most one of them |
| OrbitGame.ClickFires | orbit.py:191-229 | pressing the two unpressed game buttons at a point and then releasing fires only the button under the point, if any, applies its action once, and leaves both unpressed |
| OrbitGame.Click | orbit.py:326-336 | a press at (x, y) then a release anywhere, starting with nothing pressed: increase happens once when the point is in the top button, decrease once when it is in the bottom one, otherwise nothing; no button stays pressed |

## Left out

- `distance`, `newton_gravitational_law`, `SpaceBody.set_grav_law` and `SpaceBody.update_pos` (orbit.py:19-110): floating-point square roots, arctangents and trigonometry that a real-number model would not match. The class-level `Vector` defaults they share would also need a heap model.
- `MyGame.setup` apart from the two buttons (orbit.py:262-270): it builds the planet with a floating-point initial velocity. The star is not built there; it is the class attribute `MyGame.star` (orbit.py:242), which the model's initial star follows.
- `TextButton.draw`, `MyGame.on_draw`, window construction, `on_update`, the key and mouse-motion stubs and `main`: these are rendering and event-loop calls into the graphics library.
- Button fonts, colours, label text and bevel height: presentation only.
- The callable that a mass button stores as `action_function`: the model keeps the button's kind and maps it to the matching action, which is what `setup` binds.
- The release coordinates, the mouse button and the key modifiers of the mouse events: the source does not read them. `Buttons.Release` has no coordinate parameters, and `OrbitGame.Step` ignores the coordinates of a release event.
- IncreaseRepeated: the mass is an unbounded integer, so the model does not capture double-precision rounding. From the initial star, rounding could only start once the mass passes 2^53, which takes about 4518 net increases.
- Buttons.Release: the model treats the button list as a sequence of values and assumes it holds distinct button objects, as `setup` builds it (orbit.py:273-277). If the source list held the same object twice, the first visit would clear its `pressed` flag, so its action would fire once. The model fires once per copy.
- Buttons.Hits: button geometry and mouse coordinates are exact reals. The source computes `center_x + width / 2` in floating point. The two are the same for the game's integer geometry (orbit.py:273-277) and integer mouse positions, but the model does not capture rounding for other inputs.
