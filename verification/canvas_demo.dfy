/** The first demo (src/App.tsx): five presets whose values are numbers or ratio
    strings, a "maintain dimension" choice of "width" or "height", a rescale when
    another preset is picked, and a drag that is ratio-locked while Shift is held.
    The coefficient is always that of the first preset, the square `"1"`, against
    the selected one, so it is 1 / r for a preset of ratio r. */
module CanvasDemo {
  import opened Common
  import opened Numbers
  import opened RatioParser

  datatype Preset = Preset(title: string, value: Descriptor)

  /** The `aspectRatios` table. */
  function Presets(): seq<Preset> {
    [ Preset("1:1 (Square)", Str("1")),
      Preset("16:9 (Widescreen)", Numeric(1.77)),
      Preset("4:3 (Standard)", Str("4:3")),
      Preset("3:2 (Photo)", Str("3/2")),
      Preset("21:9 (Ultrawide)", Numeric(2.33)) ]
  }

  /** The ratio each preset stands for, position by position. */
  function PresetRatios(): seq<real> {
    [1.0, 1.77, 4.0 / 3.0, 1.5, 2.33]
  }

  /** The dropdown's option texts: each preset's value rendered as a string. */
  function OptionTexts(): seq<string> {
    ["1", "1.77", "4:3", "3/2", "2.33"]
  }

  /** The `maintainDimensions` choices. */
  function MaintainDimensions(): seq<string> {
    ["width", "height"]
  }

  const MinimumWidth: real := 30.0
  const MinimumHeight: real := 30.0

  /** Every preset descriptor parses without error to its positive ratio. */
  lemma PresetsParse()
    ensures |Presets()| == |PresetRatios()|
    ensures forall i :: 0 <= i < |Presets()| ==> Parse(Presets()[i].value) == Ok(Finite(PresetRatios()[i]))
    ensures forall i :: 0 <= i < |PresetRatios()| ==> PresetRatios()[i] > 0.0
  {
    forall i | 0 <= i < |Presets()|
      ensures Parse(Presets()[i].value) == Ok(Finite(PresetRatios()[i]))
    {
      PresetParses(i);
    }
  }

  /** A preset written as a `"W:H"` or `"W/H"` string parses to the ratio the table
      records for it, provided that ratio is W / H. */
  lemma PresetFraction(i: nat, w: nat, c: char, h: nat)
    requires i < |Presets()| && i < |PresetRatios()| && h > 0
    requires (c == ':' || c == '/') && Presets()[i].value == Str(NatText(w) + [c] + NatText(h))
    requires PresetRatios()[i] == w as real / h as real
    ensures Parse(Presets()[i].value) == Ok(Finite(PresetRatios()[i]))
  {
    ParseFraction(w, c, h);
  }

  lemma PresetParses(i: nat)
    requires i < |Presets()|
    ensures Parse(Presets()[i].value) == Ok(Finite(PresetRatios()[i]))
  {
    if i == 2 {
      assert NatText(4) + [':'] + NatText(3) == "4:3";
      PresetFraction(2, 4, ':', 3);
    } else if i == 3 {
      assert NatText(3) + ['/'] + NatText(2) == "3/2";
      PresetFraction(3, 3, '/', 2);
    }
  }

  /** The ratio of a preset of the table. */
  function PresetRatio(p: Preset): (r: real)
    requires p in Presets()
    ensures r > 0.0 && Parse(p.value) == Ok(Finite(r))
  {
    PresetsParse();
    Parse(p.value).value.v
  }

  /** The coefficient between two presets of the table is finite and positive,
      the first preset's ratio over the second's. */
  lemma PresetCoefficient(p: Preset, q: Preset)
    requires p in Presets() && q in Presets()
    ensures Coefficient(p.value, q.value) == Ok(Finite(PresetRatio(p) / PresetRatio(q)))
    ensures PresetRatio(p) / PresetRatio(q) > 0.0
  {
    var a, b := PresetRatio(p), PresetRatio(q);
    assert Parse(p.value) == Ok(Finite(a)) && Parse(q.value) == Ok(Finite(b));
    assert Coefficient(p.value, q.value) == Ok(Divide(Finite(a), Finite(b)));
    PositiveQuotient(a, b);
  }

  /** `getAspectRatioCoefficient` between two presets of the table, as a number:
      never a throw, never NaN or infinite, and the first ratio over the second. */
  function PresetCoefficientValue(p: Preset, q: Preset): (c: real)
    requires p in Presets() && q in Presets()
    ensures Coefficient(p.value, q.value) == Ok(Finite(c))
    ensures c > 0.0 && c == PresetRatio(p) / PresetRatio(q)
  {
    PresetCoefficient(p, q);
    Coefficient(p.value, q.value).value.v
  }

  /** The coefficient the demo uses, that of the square first preset against a
      preset, is the reciprocal of the preset's ratio. */
  lemma SquareCoefficientIsReciprocal(q: Preset)
    requires q in Presets()
    ensures Coefficient(Presets()[0].value, q.value) == Ok(Finite(1.0 / PresetRatio(q)))
  {
    PresetsParse();
    PresetCoefficient(Presets()[0], q);
  }

  /** `aspectRatio.value == selectedAspectRatio`: loose equality between a preset's
      value and the dropdown's text. A string compares as text, a number with
      `Number(text)`; anything else never equals a string here. */
  predicate Matches(d: Descriptor, text: string) {
    match d
    case Str(s) => s == text
    case Numeric(x) => NumberValue(text) == Finite(x)
    case Other => false
  }

  /** `Number` of `"W.F"` is W plus the fraction F. */
  lemma DecimalText(w: nat, f: string)
    requires AllDigits(f) && |f| > 0
    ensures NumberValue(NatText(w) + "." + f) == Finite(w as real + FractionValue(f))
  {
    var whole := NatText(w);
    var s := whole + "." + f;
    assert '.' !in whole;
    assert s == whole + ['.'] + f;
    assert s[|whole|] == '.';
    Text.IndexOfAfter(whole, '.', f);
    assert s[..|whole|] == whole && s[|whole| + 1..] == f;
    assert s != "" && '.' in s;
    assert AllDigits(whole);
    NatTextRoundTrip(w);
    assert NumberValue(s) == Finite(DigitsValue(whole) as real + FractionValue(f));
  }

  lemma NumberOfOne()
    ensures NumberValue("1") == Finite(1.0)
  {
    NatTextNumber(1);
    assert NatText(1) == "1";
  }

  lemma NumberOfOnePointSevenSeven()
    ensures NumberValue("1.77") == Finite(1.77)
  {
    assert FractionValue("77") == 0.77 by {
      assert "77"[1..] == "7" && "7"[1..] == "";
    }
    DecimalText(1, "77");
    assert NatText(1) + "." + "77" == "1.77";
  }

  lemma NumberOfTwoPointThreeThree()
    ensures NumberValue("2.33") == Finite(2.33)
  {
    assert FractionValue("33") == 0.33 by {
      assert "33"[1..] == "3" && "3"[1..] == "";
    }
    DecimalText(2, "33");
    assert NatText(2) + "." + "33" == "2.33";
  }

  lemma NumberOfFraction(s: string)
    requires |s| == 3 && (s[1] == ':' || s[1] == '/')
    ensures NumberValue(s) == NaN
  {
  }

  /** Each option text matches its own preset and no other, so the `forEach` of the
      handler acts on exactly one preset. */
  lemma OptionsMatchOwnPresetOnly()
    ensures |OptionTexts()| == |Presets()|
    ensures forall j, k :: 0 <= j < |Presets()| && 0 <= k < |OptionTexts()| ==>
      (Matches(Presets()[j].value, OptionTexts()[k]) <==> j == k)
  {
    forall k | 0 <= k < |OptionTexts()|
      ensures forall j :: 0 <= j < |Presets()| ==> (Matches(Presets()[j].value, OptionTexts()[k]) <==> j == k)
    {
      OptionMatchesOwnPresetOnly(k);
    }
  }

  lemma OptionMatchesOwnPresetOnly(k: nat)
    requires k < |OptionTexts()|
    ensures forall j :: 0 <= j < |Presets()| ==> (Matches(Presets()[j].value, OptionTexts()[k]) <==> j == k)
  {
    var text := OptionTexts()[k];
    if k == 0 {
      NumberOfOne();
    } else if k == 1 {
      NumberOfOnePointSevenSeven();
    } else if k == 2 {
      NumberOfFraction(text);
    } else if k == 3 {
      NumberOfFraction(text);
    } else {
      NumberOfTwoPointThreeThree();
    }
  }

  /** The `switch (selectedFixedDimension)` of the ratio change, as written: keeping
      "width" scales the height by the coefficient, keeping "height" scales the width
      by the coefficient, and any other choice throws and sets nothing. */
  function RatioSwitch(original: Dims, fixed: string, coefficient: real): (r: Result<Dims>)
    ensures r.Ok? <==> fixed in MaintainDimensions()
    ensures r.Err? ==> r.error == InvalidDimensionSelection
    ensures fixed == "width" ==> r == Ok(Dims(original.width, original.height * coefficient))
    ensures fixed == "height" ==> r == Ok(Dims(original.width * coefficient, original.height))
  {
    match fixed
    case "width" => Ok(Dims(original.width, original.height * coefficient))
    case "height" => Ok(Dims(original.width * coefficient, original.height))
    case _ => Err(InvalidDimensionSelection)
  }

  /** As written, the two branches of the switch disagree: keeping the width divides
      the box's ratio by the coefficient, keeping the height multiplies it. */
  lemma RatioSwitchBranchesDisagree(original: Dims, coefficient: real)
    requires original.width > 0.0 && original.height > 0.0 && coefficient > 0.0
    ensures RatioSwitch(original, "width", coefficient).value.width / RatioSwitch(original, "width", coefficient).value.height
      == (original.width / original.height) / coefficient
    ensures RatioSwitch(original, "height", coefficient).value.width / RatioSwitch(original, "height", coefficient).value.height
      == (original.width / original.height) * coefficient
  {
    var w, h, c := original.width, original.height, coefficient;
    assert w / (h * c) == (w / h) / c;
    assert (w * c) / h == (w / h) * c;
  }

  /** Switching a 300 x 300 box from 1:1 to 4:3 (coefficient 3/4) while keeping the
      height yields a 225 x 300 box, 3:4 rather than 4:3. */
  lemma RatioSwitchKeepHeightInverts()
    ensures RatioSwitch(Dims(300.0, 300.0), "height", 0.75) == Ok(Dims(225.0, 300.0))
    ensures 225.0 / 300.0 != 4.0 / 3.0
  {
  }

  /** The switch with the "height" branch dividing by the coefficient, as the
      "width" branch's treatment implies. */
  function RatioSwitchCorrected(original: Dims, fixed: string, coefficient: real): (r: Result<Dims>)
    requires coefficient != 0.0
    ensures r.Ok? <==> fixed in MaintainDimensions()
    ensures r.Err? ==> r.error == InvalidDimensionSelection
    ensures fixed == "width" ==> r.Ok? && r.value.width == original.width
    ensures fixed == "height" ==> r.Ok? && r.value.height == original.height
  {
    match fixed
    case "width" => Ok(Dims(original.width, original.height * coefficient))
    case "height" => Ok(Dims(original.width / coefficient, original.height))
    case _ => Err(InvalidDimensionSelection)
  }

  /** Whichever axis is kept, the corrected switch turns a box of ratio a into a box
      of ratio a / coefficient; with the coefficient a / b that is ratio b. */
  lemma RatioSwitchCorrectedRatio(original: Dims, fixed: string, coefficient: real)
    requires original.width > 0.0 && original.height > 0.0 && coefficient > 0.0
    requires fixed in MaintainDimensions()
    ensures RatioSwitchCorrected(original, fixed, coefficient).value.width
      / RatioSwitchCorrected(original, fixed, coefficient).value.height
      == (original.width / original.height) / coefficient
  {
    var w, h, c := original.width, original.height, coefficient;
    if fixed == "width" {
      assert w / (h * c) == (w / h) / c;
    } else {
      assert (w / c) / h == (w / h) / c;
    }
  }

  /** The drag handler's arithmetic, as written, for a delta (dx, dy) from the drag
      start. Unlocked, each axis is floored at 30 independently. With Shift held and
      "width" kept, the width is floored and the height is the width over the
      coefficient; with "height" kept, the height is floored and the width is the
      height over the coefficient; any other choice changes nothing. */
  function Drag(dims: Dims, dx: real, dy: real, shift: bool, fixed: string, coefficient: real): (r: Dims)
    requires coefficient != 0.0
    ensures !shift ==> r.width == Max(MinimumWidth, dims.width + dx) && r.height == Max(MinimumHeight, dims.height + dy)
    ensures shift && fixed == "width" ==>
      r.width == Max(MinimumWidth, dims.width + dx) && r.height != 0.0 && r.width / r.height == coefficient
    ensures shift && fixed == "height" ==>
      r.height == Max(MinimumHeight, dims.height + dy) && r.height != 0.0 && r.width / r.height == 1.0 / coefficient
    ensures shift && fixed !in MaintainDimensions() ==> r == dims
  {
    if shift then
      match fixed
      case "width" =>
        var w := Max(MinimumWidth, dims.width + dx);
        DivideByQuotient(w, coefficient);
        Dims(w, w / coefficient)
      case "height" =>
        var h := Max(MinimumHeight, dims.height + dy);
        QuotientOverDividend(h, coefficient);
        Dims(h / coefficient, h)
      case _ => dims
    else
      Dims(Max(MinimumWidth, dims.width + dx), Max(MinimumHeight, dims.height + dy))
  }

  /** Unlocked, a drag never shrinks the box below 30 on either axis, whatever the delta. */
  lemma DragUnlockedFloor(dims: Dims, dx: real, dy: real, fixed: string, coefficient: real)
    requires coefficient != 0.0
    ensures Drag(dims, dx, dy, false, fixed, coefficient).width >= MinimumWidth
    ensures Drag(dims, dx, dy, false, fixed, coefficient).height >= MinimumHeight
  {
  }

  /** With Shift held and the width kept, the box takes ratio coefficient = 1 / r,
      the reciprocal of the selected preset's ratio r: a 4:3 preset draws a 3:4 box. */
  lemma DragLockedWidthInverts()
    ensures Drag(Dims(300.0, 300.0), 100.0, 0.0, true, "width", 0.75) == Dims(400.0, 400.0 / 0.75)
    ensures 400.0 / (400.0 / 0.75) == 0.75
  {
  }

  /** The drag with the "width" branch multiplying by the coefficient, so that both
      branches agree with the ratio switch's "width" branch. */
  function DragCorrected(dims: Dims, dx: real, dy: real, shift: bool, fixed: string, coefficient: real): (r: Dims)
    requires coefficient != 0.0
    ensures !shift ==> r.width == Max(MinimumWidth, dims.width + dx) && r.height == Max(MinimumHeight, dims.height + dy)
    ensures shift && fixed == "width" ==> r.width == Max(MinimumWidth, dims.width + dx)
    ensures shift && fixed == "height" ==> r.height == Max(MinimumHeight, dims.height + dy)
    ensures shift && fixed !in MaintainDimensions() ==> r == dims
  {
    if shift then
      match fixed
      case "width" =>
        var w := Max(MinimumWidth, dims.width + dx);
        Dims(w, w * coefficient)
      case "height" =>
        var h := Max(MinimumHeight, dims.height + dy);
        Dims(h / coefficient, h)
      case _ => dims
    else
      Dims(Max(MinimumWidth, dims.width + dx), Max(MinimumHeight, dims.height + dy))
  }

  /** With Shift held, the corrected drag gives the box ratio 1 / coefficient, the
      selected preset's ratio, whichever axis is kept, and floors the kept axis. */
  lemma DragCorrectedLockedRatio(dims: Dims, dx: real, dy: real, fixed: string, coefficient: real)
    requires coefficient > 0.0 && fixed in MaintainDimensions()
    ensures DragCorrected(dims, dx, dy, true, fixed, coefficient).width
      / DragCorrected(dims, dx, dy, true, fixed, coefficient).height == 1.0 / coefficient
    ensures fixed == "width" ==> DragCorrected(dims, dx, dy, true, fixed, coefficient).width >= MinimumWidth
    ensures fixed == "height" ==> DragCorrected(dims, dx, dy, true, fixed, coefficient).height >= MinimumHeight
  {
    var c := coefficient;
    if fixed == "width" {
      var w := Max(MinimumWidth, dims.width + dx);
      assert w / (w * c) == 1.0 / c;
    } else {
      var h := Max(MinimumHeight, dims.height + dy);
      assert (h / c) / h == 1.0 / c;
    }
  }

  /** The component state the ratio change reads and writes: the selected preset,
      the box size the rescale starts from, the kept axis, and the displayed size. */
  datatype Editor = Editor(selected: Preset, original: Dims, fixed: string, dims: Dims)

  /** One matched preset: it becomes the selection and the rescaled size is shown,
      unless the switch threw. */
  function Select(e: Editor, p: Preset, rescaled: Result<Dims>): Result<Editor> {
    match rescaled
    case Err(err) => Err(err)
    case Ok(d) => Ok(e.(selected := p, dims := d))
  }

  /** The `forEach` of the ratio change, as written, from position `i` of the table.
      Every preset whose value matches the dropdown's text becomes the selection, and
      the box is rescaled with the coefficient of the first preset against `stale`,
      the selection the handler saw when it was called, not the one just matched.
      A throw from the switch ends the loop. */
  function ChangeFrom(i: nat, text: string, stale: Preset, e: Editor): (r: Result<Editor>)
    requires i <= |Presets()| && stale in Presets()
    ensures r.Ok? ==> r.value.original == e.original && r.value.fixed == e.fixed
    ensures r.Err? ==> r.error == InvalidDimensionSelection
    ensures (forall j :: i <= j < |Presets()| ==> !Matches(Presets()[j].value, text)) ==> r == Ok(e)
    decreases |Presets()| - i
  {
    if i == |Presets()| then Ok(e)
    else if !Matches(Presets()[i].value, text) then ChangeFrom(i + 1, text, stale, e)
    else
      var coefficient := PresetCoefficientValue(Presets()[0], stale);
      match Select(e, Presets()[i], RatioSwitch(e.original, e.fixed, coefficient))
      case Err(err) => Err(err)
      case Ok(e') => ChangeFrom(i + 1, text, stale, e')
  }

  /** `handleRatioChange`, as written, for the dropdown's text. */
  function HandleRatioChange(e: Editor, text: string): (r: Result<Editor>)
    requires e.selected in Presets()
    ensures r.Ok? ==> r.value.original == e.original && r.value.fixed == e.fixed
    ensures (forall j :: 0 <= j < |Presets()| ==> !Matches(Presets()[j].value, text)) ==> r == Ok(e)
  {
    ChangeFrom(0, text, e.selected, e)
  }

  /** The fold, as written, over a table in which only position `k` matches: it
      selects that preset and rescales with the stale coefficient. */
  lemma {:induction false} ChangeFromSingleMatch(i: nat, k: nat, text: string, stale: Preset, e: Editor)
    requires i <= k < |Presets()| && stale in Presets()
    requires forall j :: 0 <= j < |Presets()| ==> (Matches(Presets()[j].value, text) <==> j == k)
    ensures ChangeFrom(i, text, stale, e) ==
      Select(e, Presets()[k], RatioSwitch(e.original, e.fixed, PresetCoefficientValue(Presets()[0], stale)))
    decreases k - i
  {
    if i < k {
      ChangeFromSingleMatch(i + 1, k, text, stale, e);
    }
  }

  /** Picking the 4:3 option for a 300 x 300 square while the square preset is
      selected and the width is kept leaves the box square: the rescale uses the
      previous selection's coefficient, 1, instead of the 4:3 preset's, 3/4. */
  lemma StaleCoefficientIgnoresChoice()
    ensures HandleRatioChange(Editor(Presets()[0], Dims(300.0, 300.0), "width", Dims(300.0, 300.0)), "4:3")
      == Ok(Editor(Presets()[2], Dims(300.0, 300.0), "width", Dims(300.0, 300.0)))
  {
    OptionsMatchOwnPresetOnly();
    assert OptionTexts()[2] == "4:3";
    var e := Editor(Presets()[0], Dims(300.0, 300.0), "width", Dims(300.0, 300.0));
    ChangeFromSingleMatch(0, 2, "4:3", Presets()[0], e);
    assert PresetRatio(Presets()[0]) == 1.0 by {
      PresetsParse();
    }
  }

  /** The fold with the coefficient taken against the preset just matched and the
      corrected switch. */
  function ChangeFromCorrected(i: nat, text: string, e: Editor): (r: Result<Editor>)
    requires i <= |Presets()|
    ensures r.Ok? ==> r.value.original == e.original && r.value.fixed == e.fixed
    ensures r.Err? ==> r.error == InvalidDimensionSelection
    ensures (forall j :: i <= j < |Presets()| ==> !Matches(Presets()[j].value, text)) ==> r == Ok(e)
    decreases |Presets()| - i
  {
    if i == |Presets()| then Ok(e)
    else if !Matches(Presets()[i].value, text) then ChangeFromCorrected(i + 1, text, e)
    else
      var coefficient := PresetCoefficientValue(Presets()[0], Presets()[i]);
      match Select(e, Presets()[i], RatioSwitchCorrected(e.original, e.fixed, coefficient))
      case Err(err) => Err(err)
      case Ok(e') => ChangeFromCorrected(i + 1, text, e')
  }

  /** `handleRatioChange` with both defects corrected. */
  function HandleRatioChangeCorrected(e: Editor, text: string): (r: Result<Editor>)
    ensures r.Ok? ==> r.value.original == e.original && r.value.fixed == e.fixed
    ensures (forall j :: 0 <= j < |Presets()| ==> !Matches(Presets()[j].value, text)) ==> r == Ok(e)
  {
    ChangeFromCorrected(0, text, e)
  }

  lemma {:induction false} ChangeFromCorrectedSingleMatch(i: nat, k: nat, text: string, e: Editor)
    requires i <= k < |Presets()|
    requires forall j :: 0 <= j < |Presets()| ==> (Matches(Presets()[j].value, text) <==> j == k)
    ensures ChangeFromCorrected(i, text, e) ==
      Select(e, Presets()[k], RatioSwitchCorrected(e.original, e.fixed, PresetCoefficientValue(Presets()[0], Presets()[k])))
    decreases k - i
  {
    if i < k {
      assert !Matches(Presets()[i].value, text);
      ChangeFromCorrectedSingleMatch(i + 1, k, text, e);
    } else {
      var c := PresetCoefficientValue(Presets()[0], Presets()[k]);
      var selected := Select(e, Presets()[k], RatioSwitchCorrected(e.original, e.fixed, c));
      assert Matches(Presets()[k].value, text);
      if selected.Ok? {
        assert ChangeFromCorrected(k + 1, text, selected.value) == Ok(selected.value);
      }
    }
  }

  /** Picking option `k` with a valid kept axis selects preset `k` and multiplies the
      box's ratio by that preset's ratio: a square becomes exactly the chosen shape. */
  lemma HandleRatioChangeCorrectedPicksShape(e: Editor, k: nat) returns (r: Editor, ratio: real)
    requires k < |Presets()|
    requires e.original.width > 0.0 && e.original.height > 0.0
    requires e.fixed in MaintainDimensions()
    ensures ratio == PresetRatios()[k]
    ensures HandleRatioChangeCorrected(e, OptionTexts()[k]) == Ok(r)
    ensures r.selected == Presets()[k]
    ensures r.dims.height > 0.0
    ensures r.dims.width / r.dims.height == (e.original.width / e.original.height) * ratio
  {
    ratio := CorrectedSelectsOption(e, k);
    var d := SelectCorrectedShape(e, Presets()[k], ratio);
    r := e.(selected := Presets()[k], dims := d);
  }

  /** One corrected rescale with coefficient 1 / r multiplies the box's ratio by r. */
  lemma SelectCorrectedShape(e: Editor, p: Preset, rk: real) returns (d: Dims)
    requires rk > 0.0
    requires e.original.width > 0.0 && e.original.height > 0.0
    requires e.fixed in MaintainDimensions()
    ensures Select(e, p, RatioSwitchCorrected(e.original, e.fixed, 1.0 / rk)) == Ok(e.(selected := p, dims := d))
    ensures d.height > 0.0
    ensures d.width / d.height == (e.original.width / e.original.height) * rk
  {
    var c := 1.0 / rk;
    PositiveQuotient(1.0, rk);
    d := RatioSwitchCorrected(e.original, e.fixed, c).value;
    assert d.height > 0.0 by {
      if e.fixed == "width" {
        PositiveProduct(e.original.height, c);
      }
    }
    RatioSwitchCorrectedRatio(e.original, e.fixed, c);
    ReciprocalDivision(e.original.width / e.original.height, rk);
  }

  /** With an invalid kept axis, picking any option throws. */
  lemma HandleRatioChangeCorrectedRejectsAxis(e: Editor, k: nat)
    requires k < |Presets()|
    requires e.fixed !in MaintainDimensions()
    ensures HandleRatioChangeCorrected(e, OptionTexts()[k]) == Err(InvalidDimensionSelection)
  {
    var rk := CorrectedSelectsOption(e, k);
  }

  /** Picking option `k` amounts to one corrected switch with coefficient 1 / r,
      r the preset's ratio. */
  lemma CorrectedSelectsOption(e: Editor, k: nat) returns (rk: real)
    requires k < |Presets()|
    ensures rk == PresetRatios()[k] && rk > 0.0
    ensures HandleRatioChangeCorrected(e, OptionTexts()[k])
      == Select(e, Presets()[k], RatioSwitchCorrected(e.original, e.fixed, 1.0 / rk))
  {
    OptionsMatchOwnPresetOnly();
    PresetsParse();
    ChangeFromCorrectedSingleMatch(0, k, OptionTexts()[k], e);
    rk := PresetRatio(Presets()[k]);
    assert PresetRatio(Presets()[0]) == 1.0;
  }
}
