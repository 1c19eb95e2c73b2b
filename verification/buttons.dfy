/** The on-screen buttons and the press/release protocol of orbit.py:
    TextButton.on_press / on_release, the two mass buttons whose on_release also
    fires their action, and check_mouse_press_for_buttons /
    check_mouse_release_for_buttons, which walk the button list in order.

    Fonts, colours, the label text and drawing are presentation only and are
    not kept. */
module Buttons {
  import opened StarMass

  /** A plain TextButton, or one of the two subclasses bound to a mass action. */
  datatype Kind = Plain | IncreaseMassSun | DecreaseMassSun

  datatype Button = Button(centerX: real, centerY: real, width: real, height: real,
                           pressed: bool, kind: Kind)

  /** What a release does besides un-pressing: the action the button was built with. */
  function ActionOf(k: Kind): (a: Action)
    requires k != Plain
  {
    if k == IncreaseMassSun then Increase else Decrease
  }

  predicate Fires(b: Button)
  {
    b.pressed && b.kind != Plain
  }

  /** The closed rectangle of a button: its edges belong to it. */
  predicate InRect(b: Button, x: real, y: real)
  {
    && b.centerX - b.width / 2.0 <= x <= b.centerX + b.width / 2.0
    && b.centerY - b.height / 2.0 <= y <= b.centerY + b.height / 2.0
  }

  /** The hit test of check_mouse_press_for_buttons: four early exits when the
      point lies strictly beyond an edge. */
  function Hits(b: Button, x: real, y: real): (hit: bool)
    ensures hit <==> InRect(b, x, y)
  {
    if x > b.centerX + b.width / 2.0 then false
    else if x < b.centerX - b.width / 2.0 then false
    else if y > b.centerY + b.height / 2.0 then false
    else if y < b.centerY - b.height / 2.0 then false
    else true
  }

  /** TextButton.on_press: the button is pressed afterwards and nothing else changes. */
  function OnPress(b: Button): (c: Button)
    ensures c.pressed
    ensures c.(pressed := b.pressed) == b
  {
    b.(pressed := true)
  }

  /** TextButton.on_release: the button is unpressed afterwards and nothing else changes. */
  function OnRelease(b: Button): (c: Button)
    ensures !c.pressed
    ensures c.(pressed := b.pressed) == b
  {
    b.(pressed := false)
  }

  /** check_mouse_press_for_buttons: every button whose closed rectangle holds
      the point becomes pressed (overlapping ones included); nothing is ever
      un-pressed and nothing but the pressed flag changes. */
  function Press(x: real, y: real, bs: seq<Button>): (r: seq<Button>)
    ensures |r| == |bs|
    ensures forall i :: 0 <= i < |bs| ==> r[i].pressed == (bs[i].pressed || InRect(bs[i], x, y))
    ensures forall i :: 0 <= i < |bs| ==> r[i] == bs[i].(pressed := r[i].pressed)
    decreases |bs|
  {
    if |bs| == 0 then []
    else
      var b := if Hits(bs[0], x, y) then OnPress(bs[0]) else bs[0];
      [b] + Press(x, y, bs[1..])
  }

  /** The outcome of a release: the buttons afterwards, the indices of the
      buttons whose action fired (in firing order) and the star afterwards. */
  datatype Released = Released(buttons: seq<Button>, fired: seq<nat>, star: Star)

  predicate StrictlyIncreasing(xs: seq<nat>)
  {
    forall k, l :: 0 <= k < l < |xs| ==> xs[k] < xs[l]
  }

  /** The actions of the buttons at the given indices, in that order. */
  function ActionsAt(bs: seq<Button>, idx: seq<nat>): (acts: seq<Action>)
    requires forall k :: 0 <= k < |idx| ==> idx[k] < |bs| && bs[idx[k]].kind != Plain
    ensures |acts| == |idx|
    decreases |idx|
  {
    if |idx| == 0 then [] else [ActionOf(bs[idx[0]].kind)] + ActionsAt(bs, idx[1..])
  }

  /** The loop of check_mouse_release_for_buttons from position i on: each
      pressed button is released and, if it is a mass button, its action is
      applied to the star at once, before the next button is looked at. */
  function ReleaseFrom(bs: seq<Button>, i: nat, s: Star): (r: Released)
    requires i <= |bs|
    ensures |r.buttons| == |bs| - i
    ensures forall k :: 0 <= k < |r.buttons| ==> r.buttons[k] == bs[i + k].(pressed := false)
    ensures forall k :: 0 <= k < |r.fired| ==> i <= r.fired[k] < |bs| && bs[r.fired[k]].kind != Plain
    ensures StrictlyIncreasing(r.fired)
    ensures forall j :: i <= j < |bs| ==> (j in r.fired <==> Fires(bs[j]))
    decreases |bs| - i
  {
    if i == |bs| then Released([], [], s)
    else
      var b := bs[i];
      if b.pressed then
        if b.kind == Plain then
          var rest := ReleaseFrom(bs, i + 1, s);
          Released([OnRelease(b)] + rest.buttons, rest.fired, rest.star)
        else
          var rest := ReleaseFrom(bs, i + 1, Apply(ActionOf(b.kind), s));
          Released([OnRelease(b)] + rest.buttons, [i] + rest.fired, rest.star)
      else
        var rest := ReleaseFrom(bs, i + 1, s);
        Released([b] + rest.buttons, rest.fired, rest.star)
  }

  /** The star after a release is the star before it with the fired buttons'
      actions applied in firing order. */
  lemma {:induction false} ReleaseFromApplies(bs: seq<Button>, i: nat, s: Star)
    requires i <= |bs|
    ensures ReleaseFrom(bs, i, s).star == ApplyAll(s, ActionsAt(bs, ReleaseFrom(bs, i, s).fired))
    decreases |bs| - i
  {
    if i < |bs| {
      var b := bs[i];
      if b.pressed && b.kind != Plain {
        var a := ActionOf(b.kind);
        var s1 := Apply(a, s);
        var rest := ReleaseFrom(bs, i + 1, s1);
        ReleaseFromApplies(bs, i + 1, s1);
        assert ReleaseFrom(bs, i, s).fired == [i] + rest.fired;
        assert ReleaseFrom(bs, i, s).star == rest.star;
        assert ([i] + rest.fired)[1..] == rest.fired;
        var acts := ActionsAt(bs, [i] + rest.fired);
        assert acts == [a] + ActionsAt(bs, rest.fired);
        assert acts[1..] == ActionsAt(bs, rest.fired);
      } else {
        ReleaseFromApplies(bs, i + 1, s);
      }
    }
  }

  /** check_mouse_release_for_buttons. The release coordinates are unused by the
      source, so they are not parameters here. Afterwards no button is pressed,
      only the pressed flags changed, and exactly the pressed mass buttons fired,
      in list order, each applying its action to the star. */
  function Release(bs: seq<Button>, s: Star): (r: Released)
    ensures |r.buttons| == |bs|
    ensures forall k :: 0 <= k < |bs| ==> !r.buttons[k].pressed
    ensures forall k :: 0 <= k < |bs| ==> r.buttons[k] == bs[k].(pressed := false)
    ensures forall k :: 0 <= k < |r.fired| ==> r.fired[k] < |bs| && bs[r.fired[k]].kind != Plain
    ensures StrictlyIncreasing(r.fired)
    ensures forall j :: 0 <= j < |bs| ==> (j in r.fired <==> Fires(bs[j]))
    ensures r.star == ApplyAll(s, ActionsAt(bs, r.fired))
  {
    ReleaseFromApplies(bs, 0, s);
    ReleaseFrom(bs, 0, s)
  }

  /** A strictly increasing sequence holds each of its elements exactly once. */
  lemma {:induction false} StrictlyIncreasingCount(xs: seq<nat>, j: nat)
    requires StrictlyIncreasing(xs)
    ensures multiset(xs)[j] == if j in xs then 1 else 0
    decreases |xs|
  {
    if |xs| > 0 {
      assert xs == [xs[0]] + xs[1..];
      assert StrictlyIncreasing(xs[1..]);
      StrictlyIncreasingCount(xs[1..], j);
      if j == xs[0] {
        assert j !in xs[1..];
      }
    }
  }

  /** On release, a button's action fires exactly once when it is a pressed
      mass button and not at all otherwise. */
  lemma ReleaseFiresOnce(bs: seq<Button>, s: Star, j: nat)
    requires j < |bs|
    ensures multiset(Release(bs, s).fired)[j] == if Fires(bs[j]) then 1 else 0
  {
    StrictlyIncreasingCount(Release(bs, s).fired, j);
  }

  /** A second release finds nothing pressed: it fires nothing and changes
      nothing, whatever the star. */
  lemma ReleaseTwice(bs: seq<Button>, s: Star, s': Star)
    ensures Release(Release(bs, s).buttons, s') == Released(Release(bs, s).buttons, [], s')
  {
    var once := Release(bs, s).buttons;
    var twice := Release(once, s');
    assert twice.buttons == once;
  }

  /** Pressing twice at the same point is the same as pressing once. */
  lemma PressIdempotent(x: real, y: real, bs: seq<Button>)
    ensures Press(x, y, Press(x, y, bs)) == Press(x, y, bs)
  {
  }

  /** A press followed by a release leaves every button unpressed, whatever was
      pressed before, and fires exactly the mass buttons that were pressed
      before or contain the point. */
  lemma PressThenRelease(x: real, y: real, bs: seq<Button>, s: Star, j: nat)
    requires j < |bs|
    ensures var r := Release(Press(x, y, bs), s);
            && (forall k :: 0 <= k < |bs| ==> r.buttons[k] == bs[k].(pressed := false))
            && (j in r.fired <==> bs[j].kind != Plain && (bs[j].pressed || InRect(bs[j], x, y)))
  {
  }
}
