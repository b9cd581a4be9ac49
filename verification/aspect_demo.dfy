/** The second demo (aspect-ratio/src/App.tsx): presets carry both a `"W:H"` string
    and its numeric ratio; a drag measures its delta from the pointer position and
    box size captured at mouse-down, and holding Shift locks the box to the selected
    ratio, driving it from whichever axis moved further. */
module AspectDemo {
  import opened Common
  import opened Numbers
  import RatioParser

  datatype Preset = Preset(title: string, value: string, ratio: real)

  /** The `aspectRatios` table. */
  function Presets(): seq<Preset> {
    [ Preset("1:1 (Square)", "1:1", 1.0),
      Preset("16:9 (Widescreen)", "16:9", 16.0 / 9.0),
      Preset("4:3 (Standard)", "4:3", 4.0 / 3.0),
      Preset("3:2 (Photo)", "3:2", 3.0 / 2.0),
      Preset("21:9 (Ultrawide)", "21:9", 21.0 / 9.0) ]
  }

  const MinimumSize: real := 50.0

  lemma PresetConsistent(i: nat, w: nat, h: nat)
    requires i < |Presets()| && h > 0
    requires Presets()[i].value == NatText(w) + ":" + NatText(h)
    requires Presets()[i].ratio == w as real / h as real
    ensures RatioParser.Parse(RatioParser.Str(Presets()[i].value)) == Ok(Finite(Presets()[i].ratio))
  {
    RatioParser.ParseFraction(w, ':', h);
  }

  /** Every preset's ratio is positive. */
  lemma PresetsPositive()
    ensures forall i :: 0 <= i < |Presets()| ==> Presets()[i].ratio > 0.0
  {
  }

  /** Every preset's ratio is what its `"W:H"` value parses to. */
  lemma PresetsConsistent()
    ensures forall i :: 0 <= i < |Presets()| ==>
      RatioParser.Parse(RatioParser.Str(Presets()[i].value)) == Ok(Finite(Presets()[i].ratio))
  {
    forall i | 0 <= i < |Presets()|
      ensures RatioParser.Parse(RatioParser.Str(Presets()[i].value)) == Ok(Finite(Presets()[i].ratio))
    {
      PresetParses(i);
    }
  }

  lemma PresetParses(i: nat)
    requires i < |Presets()|
    ensures RatioParser.Parse(RatioParser.Str(Presets()[i].value)) == Ok(Finite(Presets()[i].ratio))
  {
    if i == 0 {
      assert NatText(1) + ":" + NatText(1) == "1:1";
      PresetConsistent(0, 1, 1);
    } else if i == 1 {
      assert NatText(16) == "16" by {
        assert NatText(16) == NatText(1) + [DigitChar(6)];
      }
      assert NatText(16) + ":" + NatText(9) == "16:9";
      PresetConsistent(1, 16, 9);
    } else if i == 2 {
      assert NatText(4) + ":" + NatText(3) == "4:3";
      PresetConsistent(2, 4, 3);
    } else if i == 3 {
      assert NatText(3) + ":" + NatText(2) == "3:2";
      PresetConsistent(3, 3, 2);
    } else {
      assert NatText(21) == "21" by {
        assert NatText(21) == NatText(2) + [DigitChar(1)];
      }
      assert NatText(21) + ":" + NatText(9) == "21:9";
      PresetConsistent(4, 21, 9);
    }
  }

  /** `aspectRatios.find(r => r.value === text)` from position `i`: the first preset
      at or after `i` whose value is exactly the text, or none. */
  function FindFrom(table: seq<Preset>, text: string, i: nat): (r: Option<nat>)
    requires i <= |table|
    ensures r.Some? ==> i <= r.value < |table| && table[r.value].value == text
    ensures r.Some? ==> forall j :: i <= j < r.value ==> table[j].value != text
    ensures r.None? <==> forall j :: i <= j < |table| ==> table[j].value != text
    decreases |table| - i
  {
    if i == |table| then None
    else if table[i].value == text then Some(i)
    else FindFrom(table, text, i + 1)
  }

  /** The drag's arithmetic for a delta (dx, dy) from the captured start size.
      Unlocked, each axis is floored at 50. Locked, the axis that moved strictly
      further in x drives: the width is floored and the height derived as width over
      ratio; otherwise, ties included, the height is floored and the width derived as
      height times ratio. The derived axis is not floored. */
  function Move(start: Dims, dx: real, dy: real, locked: bool, ratio: real): (r: Dims)
    requires ratio > 0.0
    ensures !locked ==>
      r.width == Max(MinimumSize, start.width + dx) && r.height == Max(MinimumSize, start.height + dy)
    ensures locked && Abs(dx) > Abs(dy) ==>
      r.width == Max(MinimumSize, start.width + dx) && r.height > 0.0 && r.width / r.height == ratio
    ensures locked && Abs(dx) <= Abs(dy) ==>
      r.height == Max(MinimumSize, start.height + dy) && r.height > 0.0 && r.width / r.height == ratio
    ensures r.width > 0.0 && r.height > 0.0
  {
    var w := Max(MinimumSize, start.width + dx);
    var h := Max(MinimumSize, start.height + dy);
    if locked then
      if Abs(dx) > Abs(dy) then
        DivideByQuotient(w, ratio);
        PositiveQuotient(w, ratio);
        Dims(w, w / ratio)
      else
        ProductOverFactor(h, ratio);
        PositiveProduct(h, ratio);
        Dims(h * ratio, h)
    else
      Dims(w, h)
  }

  /** Unlocked, a move never takes either axis below 50, whatever the delta. */
  lemma MoveUnlockedFloor(start: Dims, dx: real, dy: real, ratio: real)
    requires ratio > 0.0
    ensures Move(start, dx, dy, false, ratio).width >= MinimumSize
    ensures Move(start, dx, dy, false, ratio).height >= MinimumSize
  {
  }

  /** Locked, the driving axis is never below 50. */
  lemma MoveLockedDrivingFloor(start: Dims, dx: real, dy: real, ratio: real)
    requires ratio > 0.0
    ensures Abs(dx) > Abs(dy) ==> Move(start, dx, dy, true, ratio).width >= MinimumSize
    ensures Abs(dx) <= Abs(dy) ==> Move(start, dx, dy, true, ratio).height >= MinimumSize
  {
  }

  /** Locked, the derived height can fall below 50: shrinking a 50 x 50 start far to
      the left under the 21:9 preset gives a height of 150/7, about 21.4. */
  lemma MoveLockedDerivedBelowFloor()
    ensures Move(Dims(50.0, 50.0), -100.0, 10.0, true, 21.0 / 9.0) == Dims(50.0, 150.0 / 7.0)
    ensures 150.0 / 7.0 < MinimumSize
  {
  }

  /** A width-dominant locked move at ratio 2 from 100 x 100 by (40, 5) gives 140 x 70. */
  lemma MoveLockedWidthExample()
    ensures Move(Dims(100.0, 100.0), 40.0, 5.0, true, 2.0) == Dims(140.0, 70.0)
  {
  }

  /** The component's state. `resizing`, `startPos` and `startDims` are the drag
      session; `locked` is `maintainAspectRatio`. */
  datatype State = State(
    selected: Preset,
    dims: Dims,
    resizing: bool,
    startPos: Point,
    startDims: Dims,
    locked: bool)

  /** The state the component mounts with. */
  function Initial(): State {
    State(Presets()[0], Dims(300.0, 300.0), false, Point(0.0, 0.0), Dims(0.0, 0.0), false)
  }

  /** The events the handlers react to. */
  datatype Event =
    | MouseDown(button: int, at: Point)
    | MouseMove(at: Point)
    | MouseUp
    | KeyDown(key: string, shiftKey: bool)
    | KeyUp(key: string)
    | SelectRatio(text: string)

  /** `handleRatioChange`: a known preset becomes the selection and the height is
      recomputed from the current width so the box takes that ratio; an unknown
      text changes nothing. */
  function RatioChange(s: State, text: string): (r: State)
    requires s.selected.ratio > 0.0
    ensures (forall i :: 0 <= i < |Presets()| ==> Presets()[i].value != text) ==> r == s
    ensures var found := FindFrom(Presets(), text, 0);
      found.Some? ==>
        && r.selected == Presets()[found.value]
        && r.selected.value == text
        && r.dims.width == s.dims.width
        && r.dims.height * r.selected.ratio == r.dims.width
        && r == s.(selected := r.selected, dims := r.dims)
    ensures r.selected.ratio > 0.0
  {
    var found := FindFrom(Presets(), text, 0);
    if found.None? then s
    else
      var p := Presets()[found.value];
      PresetsPositive();
      QuotientTimesDivisor(s.dims.width, p.ratio);
      s.(selected := p, dims := Dims(s.dims.width, s.dims.width / p.ratio))
  }

  /** The state machine: one event's effect on the state. Mouse-down with a
      non-left button does nothing; a left-button mouse-down starts a drag and
      captures the pointer and the current size. Mouse-move outside a drag does
      nothing; inside one it sizes the box from the captured start. Mouse-up ends
      the drag. A Shift key-down sets the lock to the event's Shift state and a
      Shift key-up clears it; other keys do nothing. */
  function Step(s: State, e: Event): (r: State)
    requires s.selected.ratio > 0.0
    ensures r.selected.ratio > 0.0
    ensures e.MouseDown? && e.button != 0 ==> r == s
    ensures e.MouseDown? && e.button == 0 ==>
      r == s.(resizing := true, startPos := e.at, startDims := s.dims)
    ensures e.MouseMove? && !s.resizing ==> r == s
    ensures e.MouseMove? && s.resizing ==>
      r == s.(dims := Move(s.startDims, e.at.x - s.startPos.x, e.at.y - s.startPos.y, s.locked, s.selected.ratio))
    ensures e.MouseUp? ==> r == s.(resizing := false)
    ensures e.KeyDown? ==> r == (if e.key == "Shift" then s.(locked := e.shiftKey) else s)
    ensures e.KeyUp? ==> r == (if e.key == "Shift" then s.(locked := false) else s)
    ensures e.SelectRatio? ==> r == RatioChange(s, e.text)
  {
    match e
    case MouseDown(button, at) =>
      if button != 0 then s else s.(resizing := true, startPos := at, startDims := s.dims)
    case MouseMove(at) =>
      if !s.resizing then s
      else s.(dims := Move(s.startDims, at.x - s.startPos.x, at.y - s.startPos.y, s.locked, s.selected.ratio))
    case MouseUp => s.(resizing := false)
    case KeyDown(key, shiftKey) => if key == "Shift" then s.(locked := shiftKey) else s
    case KeyUp(key) => if key == "Shift" then s.(locked := false) else s
    case SelectRatio(text) => RatioChange(s, text)
  }

  /** What every reachable state satisfies: the selection is a preset of the table
      and the box has a positive size. */
  predicate Valid(s: State) {
    s.selected in Presets() && s.dims.width > 0.0 && s.dims.height > 0.0
  }

  lemma InitialValid()
    ensures Valid(Initial())
  {
  }

  /** Every event keeps the state valid. */
  lemma StepKeepsValid(s: State, e: Event)
    requires Valid(s)
    ensures s.selected.ratio > 0.0
    ensures Valid(Step(s, e))
  {
    PresetsPositive();
    if e.SelectRatio? {
      RatioChangeKeepsValid(s, e.text);
    }
  }

  lemma RatioChangeKeepsValid(s: State, text: string)
    requires Valid(s)
    ensures s.selected.ratio > 0.0
    ensures Valid(RatioChange(s, text))
  {
    assert s.selected.ratio > 0.0 by {
      PresetsPositive();
    }
    var r := RatioChange(s, text);
    var found := FindFrom(Presets(), text, 0);
    if found.Some? {
      var p := Presets()[found.value];
      assert p.ratio > 0.0 by {
        PresetsPositive();
      }
      assert r == s.(selected := p, dims := Dims(s.dims.width, s.dims.width / p.ratio));
      PositiveQuotient(s.dims.width, p.ratio);
    } else {
      assert r == s;
    }
  }

  /** The state after a sequence of events. */
  function Run(s: State, events: seq<Event>): (r: State)
    requires Valid(s)
    ensures Valid(r)
    decreases |events|
  {
    if events == [] then s
    else
      StepKeepsValid(s, events[0]);
      Run(Step(s, events[0]), events[1..])
  }

  /** A move depends on the captured start only, not on the size currently shown. */
  lemma MoveIgnoresCurrentSize(s: State, shown: Dims, at: Point)
    requires s.selected.ratio > 0.0 && s.resizing
    ensures Step(s, MouseMove(at)).dims == Step(s.(dims := shown), MouseMove(at)).dims
  {
  }

  /** Mouse-up always ends the drag, and no move after it changes the size until
      the next left-button mouse-down. */
  lemma MouseUpEndsDrag(s: State, at: Point)
    requires s.selected.ratio > 0.0
    ensures !Step(s, MouseUp).resizing
    ensures Step(Step(s, MouseUp), MouseMove(at)) == Step(s, MouseUp)
  {
  }

  /** A locked move after a left-button mouse-down leaves the box at the selected
      ratio, whatever the pointer did. */
  lemma LockedDragKeepsRatio(s: State, down: Point, at: Point)
    requires Valid(s) && s.locked
    ensures Step(Step(s, MouseDown(0, down)), MouseMove(at)).dims.height > 0.0
    ensures Step(Step(s, MouseDown(0, down)), MouseMove(at)).dims.width
      / Step(Step(s, MouseDown(0, down)), MouseMove(at)).dims.height == s.selected.ratio
  {
    PresetsPositive();
  }
}
