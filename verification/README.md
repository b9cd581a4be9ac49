# Aspect-ratio resize arithmetic

A Dafny model of the arithmetic at the heart of two near-identical React demos of
a resizable box. In each demo a user drags a handle to resize the box, picks an
aspect ratio from a preset list, and holds Shift to lock the box to that ratio.

- **First demo** (`src/App.tsx`). Preset values are numbers or ratio strings
  (`"1"`, `1.77`, `"4:3"`, `"3/2"`, `2.33`). They are parsed by
  `getSanitizedAspectRatio`. The coefficient the demo rescales with is that of
  the first, square preset against the selected one. When another preset is
  picked, one user-chosen axis ("width" or "height") is kept. An unlocked drag
  floors each axis at 30. With Shift held, the drag drives the box from the kept axis.
- **Second demo** (`aspect-ratio/src/App.tsx`). Presets carry a `"W:H"` string and
  its numeric ratio. Picking a preset keeps the width and recomputes the height. A
  drag measures its delta from the pointer position and box size captured at
  mouse-down. An unlocked drag floors each axis at 50. With Shift held, the axis that moved
  further drives the box, and the other axis is derived from the ratio. The
  handlers form a small state machine over mouse and key events.

Throughout, "the coefficient of X against Y" is `getAspectRatioCoefficient(X, Y)`:
X's ratio over Y's. Three facts about the code shape the model:

- The first demo's coefficient is always the square first preset's ratio over the
  selected preset's (src/App.tsx:110, 162). So it is 1 / r for a preset of ratio r,
  never the previous ratio over the new one.
- Neither demo floors the derived axis of a locked resize (src/App.tsx:167-179;
  aspect-ratio/src/App.tsx:56-62). Only the axis that drives the resize is floored.
- A descriptor such as `"4:0"` or `"a:b"` does not throw. It yields Infinity or
  NaN, modelled as `Ok(Infinite(true))` and `Ok(NaN)` (`RatioParser.ParseZeroHeight`).

Modules:

- `Common`: box dimensions, a JavaScript number as an exact finite value, a
  signed infinity or NaN (`Num`), the thrown-error outcome (`Result`), `Math.max`,
  `Math.abs` and IEEE 754 `/`.
- `Text`: `indexOf` and `split` on one character, with `Join` as the partner of
  `Split`.
- `Numbers`: `Number(text)` on digit strings with at most one decimal point, and
  the decimal rendering of naturals that it reads back.
- `RatioParser`: the descriptor parser and the coefficient.
- `CanvasDemo`: the first demo, including corrected versions of three defects
  (see Findings).
- `AspectDemo`: the second demo and its event state machine.

All numbers are Dafny `real`s, so ratios such as 16/9 are exact and ratio
equalities are exact equalities.

## Model

| member | source | states |
|---|---|---|
| Common.Divide | src/App.tsx:34 | JavaScript `/`: finite exactly when the dividend is finite and the divisor is infinite or nonzero. A finite quotient times a finite divisor gives back the dividend, and over an infinite divisor it is 0. NaN exactly when an operand is NaN, both are infinite or both are zero. Otherwise it is an infinity carrying the sign of the dividend over the divisor. |
| Text.Split | src/App.tsx:33 | `split` on one character gives at least one piece. No piece contains the separator. Joining the pieces with the separator gives back the input. There is exactly one piece iff the separator is absent. |
| Text.SplitPair | src/App.tsx:33 | Splitting `a c b`, where neither piece holds `c`, gives exactly the two pieces `[a, b]`. |
| Numbers.NatTextRoundTrip | src/App.tsx:33 | Reading the decimal rendering of any natural back as digits gives that natural. |
| Numbers.NumberValue | src/App.tsx:33 | `Number(text)` on a digit string is its exact value, so it is never infinite (overflow is left out). A finite result is non-negative, and comes only from text made of digits and a point. |
| Numbers.NatTextNumber | src/App.tsx:33 | `Number` reads back the decimal rendering of every natural. |
| RatioParser.Parse | src/App.tsx:28-44 | The parser throws InvalidAspectRatio exactly for non-string non-numbers and for strings that hold neither `:` nor `/` and are not `"1"`. A number is returned unchanged. A string holding `:` gives the quotient of its colon split. One holding `/` but no `:` gives the quotient of its slash split. `"1"` gives 1. |
| RatioParser.ParseFraction | src/App.tsx:32-39 | For any naturals W and H > 0, both `"W:H"` and `"W/H"` parse to exactly W / H. |
| RatioParser.ParseZeroHeight | src/App.tsx:32-39 | A zero height does not throw: `"W:0"` and `"W/0"` give +Infinity for W > 0, and NaN for W = 0. |
| RatioParser.ParseIgnoresTrailingPieces | src/App.tsx:33-34 | Only the first two colon-separated pieces count: `"W:H:anything"` parses to W / H. |
| RatioParser.ColonTakesPrecedence | src/App.tsx:32-38 | A string of the form `"W:H:a/b"` is split on the colon and gives W / H, for example `"1:2:3/4"` gives 1/2. |
| RatioParser.SlashSplitOfColonText | src/App.tsx:36-38 | Splitting such a string on the slash would give NaN, so the order of the two tests matters. |
| RatioParser.Coefficient | src/App.tsx:47-51 | The coefficient throws exactly when either descriptor fails to parse. It is finite exactly when the original ratio is finite and the new ratio is infinite or a nonzero finite number. |
| RatioParser.CoefficientScales | src/App.tsx:47-51 | A finite coefficient times a finite new ratio gives back the original ratio. Against an infinite new ratio the coefficient is 0. |
| RatioParser.CoefficientAgainstZeroHeight | src/App.tsx:32-51 | Against `"W:0"` (W > 0), any descriptor with a finite ratio has the finite coefficient 0. For example, `"1"` against `"1:0"` is 1 / Infinity. |
| RatioParser.CoefficientSelf | src/App.tsx:47-51 | The coefficient of a descriptor against itself is 1 when its ratio is finite and nonzero. |
| CanvasDemo.PresetsParse | src/App.tsx:11-17 | Every preset parses without error to its ratio: 1, 1.77, 4/3, 3/2 and 2.33. All of them are positive. |
| CanvasDemo.PresetCoefficient | src/App.tsx:47-51 | Between two presets the coefficient is finite and positive, equal to the first ratio over the second. |
| CanvasDemo.PresetCoefficientValue | src/App.tsx:47-51 | Between two presets `getAspectRatioCoefficient` neither throws nor gives NaN or Infinity. Its value is positive and equals the first ratio over the second. Both forms of the ratio change take their coefficient from it. |
| CanvasDemo.SquareCoefficientIsReciprocal | src/App.tsx:110 | The coefficient the demo uses, that of the square preset `"1"` against a preset of ratio r, is 1 / r. |
| CanvasDemo.OptionsMatchOwnPresetOnly | src/App.tsx:107-108 | Under loose `==`, each dropdown option text matches its own preset and no other. This includes the numeric presets compared through `Number`. |
| CanvasDemo.RatioSwitch | src/App.tsx:112-123 | Keeping "width" keeps the original width and scales the height by the coefficient. Keeping "height" scales the width by the coefficient and keeps the height. Any other choice throws InvalidDimensionSelection and produces no dimensions. |
| CanvasDemo.RatioSwitchBranchesDisagree | src/App.tsx:113-119 | As written, the two branches act in opposite directions. Keeping the width divides the box's ratio by the coefficient. Keeping the height multiplies it. |
| CanvasDemo.RatioSwitchKeepHeightInverts | src/App.tsx:117-118 | Switching a 300 x 300 box to 4:3 (coefficient 3/4) while keeping the height gives 225 x 300, which is 3:4. |
| CanvasDemo.RatioSwitchCorrected | src/App.tsx:112-123 | The corrected switch keeps the chosen axis, and throws on any other choice. |
| CanvasDemo.RatioSwitchCorrectedRatio | src/App.tsx:112-123 | Whichever axis is kept, the corrected switch turns a box of ratio a into a box of ratio a / coefficient. |
| CanvasDemo.Drag | src/App.tsx:156-186 | Unlocked, each axis is `max(30, size + delta)`. With Shift and "width", the width is floored and width / height equals the coefficient. With Shift and "height", the height is floored and width / height equals 1 / coefficient. With Shift and any other choice, nothing changes. |
| CanvasDemo.DragUnlockedFloor | src/App.tsx:184-186 | An unlocked drag never takes either axis below 30, for any delta. |
| CanvasDemo.DragLockedWidthInverts | src/App.tsx:167-172 | With the 4:3 coefficient 3/4 and the width kept, a locked drag gives a box of ratio 3/4. |
| CanvasDemo.DragCorrected | src/App.tsx:156-186 | The corrected drag floors the driving axis, agrees with `Drag` when unlocked, and with Shift held leaves the box alone for an unknown axis choice. |
| CanvasDemo.DragCorrectedLockedRatio | src/App.tsx:160-182 | With Shift held, the corrected drag gives width / height = 1 / coefficient (the preset's ratio) whichever axis is kept. The kept axis is at least 30. |
| CanvasDemo.ChangeFrom | src/App.tsx:107-125 | The `forEach` as written never changes the original size or the kept axis. It throws only InvalidDimensionSelection. It changes nothing when no remaining preset matches. |
| CanvasDemo.HandleRatioChange | src/App.tsx:104-126 | As written, text that matches no preset leaves the state unchanged. The original size and kept axis are never changed. |
| CanvasDemo.ChangeFromSingleMatch | src/App.tsx:107-125 | When exactly one preset matches, the as-written handler selects it and rescales once, with the coefficient of the previous selection. |
| CanvasDemo.StaleCoefficientIgnoresChoice | src/App.tsx:108-114 | As written, picking 4:3 for a 300 x 300 square while keeping the width leaves the box square. |
| CanvasDemo.ChangeFromCorrected | src/App.tsx:107-125 | The corrected `forEach` keeps the original size and kept axis. It changes nothing when no remaining preset matches. |
| CanvasDemo.HandleRatioChangeCorrected | src/App.tsx:104-126 | With both defects corrected, unknown text changes nothing. |
| CanvasDemo.ChangeFromCorrectedSingleMatch | src/App.tsx:107-125 | When exactly one preset matches, the corrected handler selects it and rescales once, with that preset's coefficient. |
| CanvasDemo.HandleRatioChangeCorrectedPicksShape | src/App.tsx:104-126 | With a valid kept axis, picking option k selects preset k and multiplies the box's ratio by that preset's ratio, so a square becomes exactly the chosen shape. |
| CanvasDemo.HandleRatioChangeCorrectedRejectsAxis | src/App.tsx:121-122 | With an invalid kept axis, picking any option throws InvalidDimensionSelection. |
| AspectDemo.PresetsPositive | aspect-ratio/src/App.tsx:10-16 | Every preset's `ratio` is positive. |
| AspectDemo.PresetsConsistent | aspect-ratio/src/App.tsx:10-16 | Every preset's `ratio` is exactly what its `"W:H"` value parses to. |
| AspectDemo.FindFrom | aspect-ratio/src/App.tsx:27 | `find` returns the first preset whose value is exactly the text, or none iff no value is the text. |
| AspectDemo.RatioChange | aspect-ratio/src/App.tsx:26-35 | A known preset becomes the selection. The width is kept and height × ratio = width, so the box takes the ratio exactly. Unknown text changes nothing. |
| AspectDemo.Move | aspect-ratio/src/App.tsx:50-65 | Unlocked, each axis is `max(50, start + delta)`. Locked with \|dx\| > \|dy\|, the width is that floored value and width / height = ratio. Otherwise, ties included, the height is floored and width / height = ratio. Both axes stay positive. |
| AspectDemo.MoveUnlockedFloor | aspect-ratio/src/App.tsx:53-54 | An unlocked move never takes either axis below 50, for any delta. |
| AspectDemo.MoveLockedDrivingFloor | aspect-ratio/src/App.tsx:56-62 | A locked move never takes the driving axis below 50. |
| AspectDemo.MoveLockedDerivedBelowFloor | aspect-ratio/src/App.tsx:58-59 | The derived axis is not floored: a 50 x 50 start moved by (-100, 10) under 21:9 gets height 150/7 < 50. |
| AspectDemo.MoveLockedWidthExample | aspect-ratio/src/App.tsx:53-59 | Locked at ratio 2, a move of (40, 5) from 100 x 100 gives 140 x 70. |
| AspectDemo.Step | aspect-ratio/src/App.tsx:37-82 | A non-left mouse-down changes nothing. A left one starts a drag and captures the pointer and the current size. A move outside a drag changes nothing, and inside one sizes the box from the captured start. Mouse-up ends the drag. Shift key-down sets the lock to the event's Shift state, Shift key-up clears it, and other keys change nothing. |
| AspectDemo.StepKeepsValid | aspect-ratio/src/App.tsx:26-82 | Every event keeps the selection a preset of the table and the box size positive. |
| AspectDemo.InitialValid | aspect-ratio/src/App.tsx:19-24 | The mounted state is valid. |
| AspectDemo.Run | aspect-ratio/src/App.tsx:26-82 | Any sequence of events from a valid state ends in a valid state. |
| AspectDemo.MoveIgnoresCurrentSize | aspect-ratio/src/App.tsx:47-54 | During a drag, a move's result depends on the captured start size, not on the size currently shown. |
| AspectDemo.MouseUpEndsDrag | aspect-ratio/src/App.tsx:47-70 | After mouse-up the drag is over, and a following move changes nothing. |
| AspectDemo.LockedDragKeepsRatio | aspect-ratio/src/App.tsx:37-62 | While locked, a left-button mouse-down followed by any move leaves the box at exactly the selected ratio. |

## Left out

- React rendering, CSS, the three.js canvas and the HTML overlay (src/App.tsx:54-85, 192-241; aspect-ratio/src/App.tsx:106-138). They hold no logic beyond displaying the size.
- Listener attach and detach in `useEffect` (src/App.tsx:138-147; aspect-ratio/src/App.tsx:84-104), and every `console.log`. This is browser plumbing. `AspectDemo.Step` applies each event directly.
- `handleDimensionChange`, `handleMouseDown` and `handleMouseUp` of src/App.tsx. They only store the dropdown value, a flag and the pointer position. `CanvasDemo.Drag` takes the delta and the kept axis as parameters.
- Stale closures and React state timing in src/App.tsx. `handleDrag` reads whatever `dimensions` and start position its closure holds. Line 151 overwrites `originalDimensions` on every drag. The model passes the size, delta and coefficient explicitly, and `Editor.original` is whatever size the caller supplies. The stale `selectedRatio` at line 110 is modelled (see Findings).
- State updates queued before a throw. When the switch at src/App.tsx:121-122 throws, `setSelectedRatio` at line 109 has already been called. The model returns the error and no state, and does not model what React does with the queued update.
- IEEE-754 rounding and overflow. Numbers are exact rationals, and 1.77, 2.33 and 16/9 are exact constants.
- Numbers.NumberValue: a digit string whose value is about 1.8 × 10^308 or more (so every one of 310 or more digits without leading zeros) overflows to Infinity in JavaScript. The model reads its exact, finite value.
- Most of JavaScript `Number(text)`. `Numbers.NumberValue` accepts only digits with at most one decimal point (the empty string is 0). It treats all other text as NaN, including signs, spaces, exponents, hexadecimal and `"Infinity"`.
- RatioParser.Parse: a numeric descriptor is any real, so NaN and infinite numbers passed as descriptors are not modelled. An object compared with `==` against a string (its `toString`) is modelled as never equal.
- CanvasDemo.Drag: requires a nonzero coefficient, whereas JavaScript would produce Infinity for a zero one. Every preset's coefficient is positive (`CanvasDemo.PresetCoefficient`).
- AspectDemo.Move: requires a positive ratio, as do `AspectDemo.RatioChange` and `AspectDemo.Step` through the selection. Every preset's ratio is positive (`AspectDemo.PresetsPositive`).
- Signed zero. Dafny reals have one zero, so `Common.Divide` treats every zero as +0: a finite number over an infinity is 0, never -0, and a nonzero number over 0 takes the sign of the dividend alone.

## Findings

| source | as written | input that shows it | evidently intended | confidence | as-written member | corrected member |
|---|---|---|---|---|---|---|
| src/App.tsx:110 | The rescale's coefficient is computed from `selectedRatio`. That is the selection from before the change, because the `setSelectedRatio` on line 109 has not taken effect. | Square preset selected, 300 x 300 box, width kept, option `"4:3"` picked: the box stays 300 x 300 (`StaleCoefficientIgnoresChoice`). | The coefficient of the preset just matched, so the box becomes 300 x 225. | medium; not executed | CanvasDemo.HandleRatioChange | CanvasDemo.HandleRatioChangeCorrected |
| src/App.tsx:117-118 | Keeping the height multiplies the width by the coefficient. The "width" branch divides the ratio by the coefficient, so the two branches give reciprocal shapes. | 300 x 300 box, coefficient 3/4 (4:3), height kept: 225 x 300, a 3:4 box (`RatioSwitchKeepHeightInverts`). | Divide the width by the coefficient, so either kept axis gives ratio a / coefficient. | medium; not executed | CanvasDemo.RatioSwitch | CanvasDemo.RatioSwitchCorrected |
| src/App.tsx:167-172 | A Shift drag keeping the width sets height = width / coefficient, giving the box ratio coefficient = 1/r. The "height" branch gives ratio r. | 4:3 preset (coefficient 3/4), width kept, drag of 100 from 300 x 300: 400 x 533.3, a 3:4 box (`DragLockedWidthInverts`). | height = width × coefficient, so both branches give the preset's ratio r. | medium; not executed | CanvasDemo.Drag | CanvasDemo.DragCorrected |
