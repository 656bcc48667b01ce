# Light tree colour animation, modelled in Dafny

The light tree scatters small lights over a cone and animates their colours
every frame. This project models the part that decides which colour each
light shows:

- the **resize helper** that grows or shrinks a collection and reports the
  elements added or removed (`array_extensions.dfy`);
- **palette lookup** along `[0, 1]` in banded and cyclic ("smooth") modes, and
  the mapping of a point into box-local coordinates (`threejs_utils.dfy`,
  `box3_utils.dfy`);
- the **seven animators** behind the two-phase protocol `prepareUpdate` once
  per frame, then `colorLight` per light: static, mixed, gradient, wave,
  colour shift, breathing and blinking stars (`color_*.dfy`,
  `blinking_stars.dfy`). `animators.dfy` puts them behind one type. The axis
  shared by the gradient and wave animators is in `gradient_axis.dfy`. The
  cycle arithmetic shared by shift and breathing is in `cycles.dfy`;
- the **host** `TreeVisualizationApp` without rendering (`app.dfy`). It covers:
  - the two change flags that tell the animator once that the light count or
    the bounding box changed;
  - the per-frame context snapshot;
  - resizing the light list and recomputing the box;
  - rescaling the tree;
  - `TreeLight.setColor` with its colour capping and its skip of repeated
    colours.

Colours and positions are triples of reals (`Vectors.Vec3`). JavaScript's
`%` is a truncating remainder (`JsMath.JsMod`), and `Math.floor` and
`Math.sign` are written out in `numbers.dfy`. The world outside the model
comes in as parameters:

- `Math.random()` is any number in `[0, 1)` (`MathRandom.Random`);
- the camera's frustum test is a predicate `visible(index, position)`;
- `createLight`'s random placement is a function `place(index)`;
- the breathing animator's cosine is a function `cosPhase`. Only its range,
  its values at phase `0` and `1/2` and its symmetry are assumed
  (`ColorBreathing.IsShiftedCosine`).

The main results are these:

- **Palette lookups stay in range.** Every alpha the animators compute lies in
  the range `lerpGradient` accepts. A light inside the bounding box lies
  between the gradient axis's two ends.
- **The host stays coherent.** The cached box is the lights' bounding box,
  the animator fits the lights up to what the flags announce, and every light
  displays the capped colour it was last handed (`TreeApp.Coherent`). Every
  operation keeps this, and `update` always leaves an animator that can colour
  every light.
- **Each animator produces only colours its configuration allows**
  (`Animators.Paints`).
- **Blinking stars.** The queue never holds a light twice, and the catch-up
  loop replaces exactly one star per whole interval elapsed.

Where the repository's design description and its code disagree, the model
follows the code:

- The star count is `starPercentage * lightCount` passed unrounded to
  `resize`. Growing therefore rounds up and shrinking rounds down
  (`ArrayExtensions.ResizedLength`). It is not rounded to nearest.
- The wave's `% 1` is not corrected for negative values, and its cycle
  length is divided by unchecked. The model therefore requires a
  non-negative scale and a positive cycle length.
- An empty palette is not rejected at construction. Each animator's `Valid`
  states the palette size its constructor's tuple type demands.
- A bounding box with no extent along the direction gives the gradient and
  the wave a `0 / 0` alpha. There is no fallback constant (see Findings).

## Model

| member | source | states |
|---|---|---|
| ArrayExtensions.Resize | src/extensions/array_extensions.ts:22-35 | The result has the requested length. The surviving prefix is kept. The operation is `None`, `Expanded` or `Shrunk` exactly when the size is equal, larger or smaller. The delta has length `abs(size - length)` and is empty iff `None`. On growth the delta is the new tail, `gen(length + k)` at position `k`. On shrink, the kept part followed by the delta is the original. |
| ArrayExtensions.ResizeInPlace | src/extensions/array_extensions.ts:25-34 | The push loop and the `splice` the original runs give the same collection and the same operation and delta as `Resize`. |
| ArrayExtensions.ResizedToIsResize | src/extensions/array_extensions.ts:22-35 | Any collection that keeps the surviving prefix and has the requested length is what `Resize` produces for the generator yielding its tail, so `ResizedTo` characterises `resize` completely. |
| ArrayExtensions.ExpandThenShrink | src/extensions/array_extensions.ts:27-33 | Growing and then shrinking back restores the original. |
| ArrayExtensions.ShrinkThenRegrow | src/extensions/array_extensions.ts:27-33 | Shrinking and then regrowing with a generator that reproduces the removed elements restores the original. The growth's delta equals the shrink's delta. |
| ArrayExtensions.ResizedLength | src/extensions/array_extensions.ts:25-33 | For a fractional size the resulting length lies between its floor and its ceiling. It grows iff the size exceeds the length and shrinks iff it is below. |
| ArrayExtensions.WholeSizeIsExact | src/extensions/array_extensions.ts:25-33 | A whole size is met exactly. |
| MathRandom.Random | src/effects/blinking_stars.ts:33 | A draw lies in `[0, 1)`. |
| MathRandom.RandomIndex | src/effects/color_mixed.ts:17 | `floor(random * n)` is a valid index for `n > 0`, and `0` for `n = 0`. |
| MathRandom.ScaledIndexCovers | src/effects/blinking_stars.ts:36 | Every index below `n` is produced by some draw, so picking any free light is a possible outcome. |
| ThreeUtils.SegmentIndex | src/extensions/threejs_utils.ts:18-25 | For `alpha` in `[0, 1)` the part index lies below the number of parts. |
| ThreeUtils.SegmentBlend | src/extensions/threejs_utils.ts:18-26 | The blend factor `alpha % delta / delta` lies in `[0, 1)`. |
| ThreeUtils.NextCyclic | src/extensions/threejs_utils.ts:20 | The next index is in range and is `0` exactly when the current one is the last. |
| ThreeUtils.SmoothLookup | src/extensions/threejs_utils.ts:18-21 | Below one, smooth mode gives a point on a palette segment, possibly the one from the last colour back to the first. At `0` it gives the first colour. |
| ThreeUtils.BandedLookup | src/extensions/threejs_utils.ts:24-26 | Below one, banded mode gives a point on a segment between two neighbouring colours, never the wrap-around one. At `0` it gives the first colour. |
| ThreeUtils.LerpGradient | src/extensions/threejs_utils.ts:15-28 | Alpha `0` gives the first colour in both modes. Alpha `1` gives the first colour in smooth mode and the last in banded mode. Every result lies on a palette segment allowed by the mode. |
| ThreeUtils.ZeroAlphaFirstSegment | src/extensions/threejs_utils.ts:18-26 | Alpha `0` falls in part `0` with blend `0`. |
| ThreeUtils.AtKnot | src/extensions/threejs_utils.ts:18-26 | At `k / parts` the index is exactly `k` and the blend is `0`. |
| ThreeUtils.BandedAtKnot | src/extensions/threejs_utils.ts:24-26 | Banded mode at `k / (n - 1)` reproduces colour `k` exactly. |
| ThreeUtils.SmoothAtKnot | src/extensions/threejs_utils.ts:18-21 | Smooth mode at `k / n` reproduces colour `k` exactly. |
| ThreeUtils.BandedTwoColors | src/extensions/threejs_utils.ts:23-26 | With two colours, banded mode is plain linear interpolation over all of `[0, 1]`. |
| ThreeUtils.BandedTwoColorsMidpoint | src/extensions/threejs_utils.ts:24-26 | With two colours, alpha `0.5` gives their midpoint. |
| ThreeUtils.LocalCoordinate | src/extensions/threejs_utils.ts:8-12 | On an axis of positive size a contained coordinate maps into `[0, 1]`, with `min` at `0` and `max` at `1`. On an axis of size zero the result is `NaN`. |
| ThreeUtils.ToLocalPoint | src/extensions/threejs_utils.ts:3-13 | The result is defined iff the point is in the box. Each coordinate depends only on that axis's own coordinate, minimum and size. |
| ThreeUtils.LocalPointInUnitCube | src/extensions/threejs_utils.ts:4-12 | In a box of positive size, a contained point maps into the unit cube. |
| ThreeUtils.CornersMapToUnitCorners | src/extensions/threejs_utils.ts:9-12 | The box's `min` maps to `(0,0,0)` and its `max` to `(1,1,1)`. |
| Box3Utils.ToLocalPoint | src/extensions/box3_utils.ts:3-13 | The duplicate agrees with `ThreeUtils.ToLocalPoint` on every box and point, and is undefined exactly outside the box. |
| Cycles.CycleIndex | src/effects/color_shift.ts:17 | `floor(t / cycle) % n` is a palette index for non-negative time. |
| Cycles.CyclePhase | src/effects/color_shift.ts:19 | `t / cycle % 1` lies in `[0, 1)`. |
| Cycles.WithinCycle | src/effects/color_shift.ts:17-19 | Throughout the `k`-th cycle the index is `k mod n` and the phase is the fraction of the cycle elapsed. |
| Cycles.CycleStart | src/effects/color_shift.ts:17-19 | At the start of cycle `k` the phase is `0`. |
| Cycles.LaterCycle | src/effects/color_shift.ts:17-19 | `m` cycles later the index has advanced by `m` modulo `n` and the phase is unchanged. |
| Cycles.Periodic | src/effects/color_shift.ts:17-19 | After `n` cycles both index and phase repeat. |
| Cycles.MirroredCycle | src/effects/color_breathing.ts:17-18 | Two times mirrored about the middle of a cycle share its index, and their phases add up to one. |
| ColorShift.Create | src/effects/color_shift.ts:9-12 | The palette is kept. A given cycle length is kept, and a missing one defaults to `4000`. With the default and at least two colours the animator is valid. |
| ColorShift.ColorLight | src/effects/color_shift.ts:16-21 | The colour lies on the segment from the current cycle's palette entry `floor(t / cycle) mod n` to its cyclic successor, at a fraction in `[0, 1)` of the way. |
| ColorShift.DuringCycle | src/effects/color_shift.ts:17-20 | During cycle `k` the colour is entry `k mod n` blended toward entry `(k + 1) mod n` by the fraction of the cycle elapsed. |
| ColorShift.AtCycleStart | src/effects/color_shift.ts:17-20 | At `t = k * cycle` the colour is exactly entry `k mod n`. |
| ColorShift.Periodic | src/effects/color_shift.ts:17-20 | The colour repeats with period `n * cycle`. |
| ColorBreathing.Create | src/effects/color_breathing.ts:8-11 | The palette is kept. A given cycle length is kept, and a missing one defaults to `4000`. With the default and at least one colour the animator is valid. |
| ColorBreathing.Intensity | src/effects/color_breathing.ts:18 | The brightness lies in `[0, 1]`: `0` at phase `0` and `1` at phase `1/2`. |
| ColorBreathing.ColorLight | src/effects/color_breathing.ts:16-20 | The colour is the current cycle's palette entry dimmed by a factor in `[0, 1]`. |
| ColorBreathing.DarkAtCycleStart | src/effects/color_breathing.ts:17-19 | Every cycle starts black. |
| ColorBreathing.FullAtHalfCycle | src/effects/color_breathing.ts:17-19 | Half-way through cycle `k` the colour is entry `k mod n` at full strength. |
| ColorBreathing.Symmetric | src/effects/color_breathing.ts:18-19 | Within a cycle, fading in mirrors fading out. |
| ColorStatic.ColorLight | src/effects/color_static.ts:8-16 | Every light shows the configured colour, whatever the frame, the light index and the position. |
| ColorMixed.Create | src/effects/color_mixed.ts:8-12 | A new animator keeps the palette it is given and holds no light colours yet. |
| ColorMixed.PrepareUpdate | src/effects/color_mixed.ts:14-21 | On a count change the held colours are resized to the light count, and lights that remain keep their colour. Every new light holds a palette colour. Without the flag nothing changes. Palette-only colours stay palette-only. |
| ColorMixed.ColorLight | src/effects/color_mixed.ts:23-25 | A light's colour is a palette colour whenever all held colours are. |
| ColorGradient.Create | src/effects/color_gradient.ts:18-21 | The palette is kept. A given direction is kept, and a missing one defaults to straight up. The axis is unset until the first box arrives. |
| ColorGradient.PrepareUpdate | src/effects/color_gradient.ts:23-34 | The axis is recomputed from the context's box iff the box changed. Otherwise the animator is unchanged. The palette and direction are always kept. |
| ColorGradient.ColorLight | src/effects/color_gradient.ts:36-41 | The colour is banded: it lies on a segment between two neighbouring palette colours. |
| ColorGradient.ColorLightAsWritten | src/effects/color_gradient.ts:36-41 | As written, a light has a colour exactly when its alpha is a number in `[0, 1]`, and that colour is `ColorLight`'s. |
| ColorGradient.PreparedColorsContainedLights | src/effects/color_gradient.ts:23-40 | After the axis is computed from a box, every light inside that box gets a colour. |
| ColorGradient.PrepareIdempotent | src/effects/color_gradient.ts:23-34 | Preparing twice for one frame equals preparing once. |
| ColorGradient.EndsShowFirstAndLast | src/effects/color_gradient.ts:36-40 | The light at the axis origin shows the first colour. On a non-degenerate axis, the light at its far end shows the last. |
| ColorGradient.DefaultRunsBottomToTop | src/effects/color_gradient.ts:20-40 | With the default direction, a light's colour is the palette lookup of its height fraction within the box. |
| ColorGradient.SingleLightHasNoColor | src/effects/color_gradient.ts:37-40 | Over a single light the original has no colour for it. |
| GradientAxis.ProjectionIsParallel | src/effects/color_gradient.ts:30 | `projectOnVector` yields a vector parallel to the one projected on. |
| GradientAxis.AxisAlongDirection | src/effects/color_gradient.ts:25-33 | The axis's midpoint is the box centre, and the axis is parallel to the direction and points the same way. |
| GradientAxis.AlphaAsWritten | src/effects/color_gradient.ts:37-39 | The original's alpha is `NaN` exactly when the axis has length zero. |
| GradientAxis.Alpha | src/effects/color_gradient.ts:37-39 | The corrected alpha agrees with the original wherever the original is a number. It is `0` on a zero axis and never negative. |
| GradientAxis.SingleLightAlphaIsNaN | src/effects/color_gradient.ts:25-39 | The box of a single light gives that light a `NaN` alpha. |
| GradientAxis.FlatBoxAxis | src/effects/color_gradient.ts:25-33 | A box of size zero gives the zero axis. |
| GradientAxis.AlphaAtOrigin | src/effects/color_gradient.ts:37-39 | The axis origin has alpha `0`. |
| GradientAxis.AlphaAtEnd | src/effects/color_gradient.ts:37-39 | The far end of a non-zero axis has alpha `1`. |
| GradientAxis.AlphaWithinBox | src/effects/color_gradient.ts:25-39 | Every point in the box has alpha in `[0, 1]`, for every direction. |
| GradientAxis.AxisIgnoresDirectionScale | src/effects/color_gradient.ts:20 | Scaling the direction by a positive factor leaves the axis unchanged, so normalising the direction does not matter. |
| GradientAxis.RefreshAxis | src/effects/color_gradient.ts:24-33 | The axis is recomputed iff the box changed. Otherwise the current axis is kept. |
| GradientAxis.RefreshIdempotent | src/effects/color_gradient.ts:24-33 | Refreshing twice equals refreshing once. |
| GradientAxis.UpAxis | src/effects/color_gradient.ts:20-33 | With the default direction the axis runs from the middle of the box's bottom face to the middle of its top face. |
| GradientAxis.UpAlpha | src/effects/color_gradient.ts:37-39 | With the default direction, a light's alpha is its height fraction in the box. |
| ColorWave.Create | src/effects/color_wave.ts:16-22 | The palette and direction are kept. Each given optional argument is kept, and each missing one takes its default: cycle `2500`, scale `1` and banded mode. The axis is unset. With the defaults and at least two colours the animator is valid. |
| ColorWave.PrepareUpdate | src/effects/color_wave.ts:24-35 | The axis is recomputed iff the box changed. Everything else is kept. |
| ColorWave.WaveAlpha | src/effects/color_wave.ts:40 | The shifted, scaled and wrapped alpha lies in `[0, 1)`. |
| ColorWave.ColorLight | src/effects/color_wave.ts:37-42 | Corrected: the colour lies on a palette segment allowed by the animator's mode, for every light, including on a zero-length axis, where the corrected alpha is `0`. |
| ColorWave.ColorLightAsWritten | src/effects/color_wave.ts:38-41 | As written, a light has no colour exactly when the axis has length zero. Otherwise its colour is `ColorLight`'s. |
| ColorWave.SingleLightHasNoColor | src/effects/color_wave.ts:38-41 | A wave over a single light leaves that light without a colour at every time. |
| ColorWave.Periodic | src/effects/color_wave.ts:40-41 | After `cycle / scale` every light shows the same colour again. |
| ColorWave.WaveAlphaPeriodic | src/effects/color_wave.ts:40 | The wrapped alpha repeats with period `cycle / scale`. |
| ColorWave.StartsAsGradient | src/effects/color_wave.ts:37-41 | At time `0` with scale `1`, a light short of the far end shows its gradient colour. |
| ColorWave.ZeroScaleIsFirstColor | src/effects/color_wave.ts:40-41 | With scale `0` every light shows the first colour at all times. |
| BlinkingStars.Create | src/effects/blinking_stars.ts:26-30 | A new animator has no stars and no accumulated time. Each given parameter is kept, and each missing one takes its default: the palette `[white]`, the share `0.2` and the interval `80`. With all defaults it is valid. |
| BlinkingStars.CandidateCount | src/effects/blinking_stars.ts:36 | The random light draw can name at least one light and at least every real light. |
| BlinkingStars.FreeCandidateExists | src/effects/blinking_stars.ts:35-37 | While the queue is shorter than the number of candidates some candidate is unlit, so the search loop ends. |
| BlinkingStars.CreateStarLight | src/effects/blinking_stars.ts:32-40 | A new star is on a candidate light not already in the queue, in a palette colour. |
| BlinkingStars.AppendDistinct | src/effects/blinking_stars.ts:35-37 | Appending a star on an unlit light keeps the queue's lights distinct. |
| BlinkingStars.StarCount | src/effects/blinking_stars.ts:44-45 | The star count after a count change never exceeds the number of candidate lights. |
| BlinkingStars.StarShare | src/effects/blinking_stars.ts:44 | `starPercentage * lightCount` lies between `0` and the light count. |
| BlinkingStars.ResizeQueue | src/effects/blinking_stars.ts:45 | The queue is resized to the star count with old stars kept. Each new star is a fresh one on a candidate light, and distinct lights stay distinct. |
| BlinkingStars.Advance | src/effects/blinking_stars.ts:48-53 | The number of replacements is `floor((acc + delta) / interval)` and the accumulator ends as `(acc + delta) % interval`. The queue length is kept, but an empty queue gains one star. The surviving old stars move to the front in order. Distinct lights stay distinct. |
| BlinkingStars.ReplaceOldest | src/effects/blinking_stars.ts:50-51 | One step drops the oldest star, if any, and appends a fresh one, keeping the other stars in order and distinct. |
| BlinkingStars.SpentIsProduct | src/effects/blinking_stars.ts:49-52 | `n` loop steps use up `n * interval` of the accumulated time. |
| BlinkingStars.CountedIntervals | src/effects/blinking_stars.ts:48-53 | A loop that ends below one interval ran once per whole interval, leaving the remainder. |
| BlinkingStars.OldOrNewTwice | src/effects/blinking_stars.ts:42-53 | After the resize and the catch-up loop every star still shows a palette colour. |
| BlinkingStars.PrepareUpdate | src/effects/blinking_stars.ts:42-54 | The configuration is kept and the queue never outgrows the candidate lights. The accumulator ends below one interval, as `(acc + delta) % interval`. With no whole interval elapsed, the queue is exactly the resized one, or the old one if the count did not change. Otherwise its length is the star count, at least one. Distinct lights and palette colours are preserved. |
| BlinkingStars.ResizeOnCountChange | src/effects/blinking_stars.ts:43-46 | The resize happens only when the count changed, and to the star count. The queue is otherwise untouched. |
| BlinkingStars.FirstStar | src/effects/blinking_stars.ts:57 | `find` returns the first entry on the light, and nothing iff the light is not in the queue. |
| BlinkingStars.ColorLight | src/effects/blinking_stars.ts:56-63 | A light not in the queue is black. A queued light shows the colour of one of its queue entries. |
| BlinkingStars.StarShowsItsColor | src/effects/blinking_stars.ts:56-63 | With distinct lights, every star shows exactly its own colour. |
| Animators.PrepareUpdate | src/app.ts:31-34 | Whatever the flags announced, the prepared animator is ready for the frame's light count and box, and keeps its invariants. It is what its own kind's `prepareUpdate` makes of the installed one (`PreparedFrom`). The static, shift and breathing animators are unchanged. The gradient and wave are exactly their refreshed selves. The mixed animator keeps its palette and resizes its held colours only on a count change, with new ones from the palette. The stars are what `BlinkingStars.PreparedFrom` allows: palette, share and interval kept, the remainder of the elapsed time kept, the queue unchanged (or only resized on a count change) while no whole interval elapsed, and otherwise holding the star count, at least one star. |
| Animators.ColorLight | src/app.ts:33 | Every colour an animator hands out is one its configuration can produce. |
| TreeApp.Cap | src/app.ts:53 | A colour in `[0, 1]` is displayed within `[OFF, 1]`. |
| TreeApp.UncapCap | src/app.ts:53 | Capping is undone by `Uncap`. |
| TreeApp.CapInjective | src/app.ts:53 | Different colours are displayed differently. |
| TreeApp.CapEnds | src/app.ts:18-19 | Black is displayed as the off colour `0x101010` and white as white. |
| TreeApp.NewLight | src/app.ts:40-45 | A new light at its position displays the off colour. |
| TreeApp.SetColor | src/app.ts:47-57 | The light remembers the colour and displays it capped, and the position never changes. Handing it the colour it already has changes nothing. |
| TreeApp.Positions | src/app.ts:150 | One position per light, in order. |
| TreeApp.BoundsHoldLights | src/app.ts:150 | The recomputed box contains every light. |
| TreeApp.SetupLights | src/app.ts:137-151 | The lights are resized to the count, with old lights kept and new ones placed fresh. Both flags are raised iff the count changed. The box is the smallest one holding all positions. Nothing else changes. |
| TreeApp.SetupSameCount | src/app.ts:137-151 | Setting up the current count changes nothing. |
| TreeApp.SetupKeepsCoherent | src/app.ts:137-151 | Setting up lights keeps the host coherent. |
| TreeApp.ResizedLightsDisplay | src/app.ts:143 | After a resize every light still displays its capped colour. |
| TreeApp.Create | src/app.ts:96-105 | Corrected: the constructor holds the requested number of lights and the corrected, black off animator. Its flags are raised iff there are lights. |
| TreeApp.CreateIsCoherent | src/app.ts:96-105 | A new host is coherent. |
| TreeApp.FrameContext | src/app.ts:166-180 | The snapshot holds the time, the time since the previous frame, the light count, the box and both flags as they were before clearing. |
| TreeApp.Update | src/app.ts:166-190 | Corrected, through the corrected off animator and wave and gradient alpha: the frame clears both flags, records the time and keeps the host coherent. Invisible lights are untouched. The animator it leaves installed is the one prepared from the installed animator for this frame's context (`PreparedFrom`). Every visible light is handed, with its own index and position, the colour that prepared animator gives it, and displays it capped. That colour is one the animator's configuration allows. Under the static animator a repeated frame changes no light. |
| TreeApp.ColorVisibleLights | src/app.ts:185-190 | The loop colours exactly the visible lights and keeps positions and displays consistent. |
| TreeApp.StaticFrameUnchanged | src/app.ts:47-50 | When every visible light already has the static colour, every `setColor` is skipped. |
| TreeApp.SetAnimator | src/app.ts:199-203 | Corrected: the new animator, or the off animator, is installed. Both flags are raised and nothing else changes. |
| TreeApp.SetAnimatorKeepsCoherent | src/app.ts:199-203 | After installing any valid animator the next frame can colour every light. |
| TreeApp.SetAnimatorAsWritten | src/app.ts:199-203 | As written, only the count flag is raised and the default animator is white. |
| TreeApp.LateGradientHasNoAxis | src/app.ts:199-203 | As written, a gradient installed after the box was announced gets no axis until the box next changes. It does not fit the host, the next frame leaves its axis unset, and so does any run of later frames none of which announces the box. |
| TreeApp.OffShowsOffColor | src/app.ts:20 | Corrected: the off animator displays every light in the off colour. |
| TreeApp.OffAsWrittenShowsWhite | src/app.ts:20 | As written, the off animator displays every light in full white. |
| TreeApp.Rescale | src/app.ts:206-216 | Every position and both box corners are multiplied by the factors, and only the box flag is raised. |
| TreeApp.RescaleKeepsCoherent | src/app.ts:205-218 | A rescale by non-negative factors keeps every light in the box and the host coherent. |
| TreeApp.SetTreeRadius | src/app.ts:205-218 | x and z are scaled by new radius / old radius and y is kept. The box flag is raised and the radius stored. |
| TreeApp.SetTreeHeight | src/app.ts:220-233 | y is scaled by new height / old height and x and z are kept. The box flag is raised and the height stored. |
| TreeApp.SetTreeRadiusKeepsCoherent | src/app.ts:205-218 | A new radius of the same sign keeps the host coherent. |
| TreeApp.SetTreeHeightKeepsCoherent | src/app.ts:220-233 | A new height of the same sign keeps the host coherent. |
| Vectors.Lerp | src/effects/color_shift.ts:20 | `lerp` by `0` is the start, by `1` the end, and between equal colours it is that colour. |
| Vectors.BoundsIsTight | src/app.ts:150 | `setFromPoints` gives a box that contains every point and whose every face touches one. |
| Vectors.BoundsOfScaled | src/app.ts:208-213 | Scaling the points by non-negative factors scales their bounding box the same way. |

## Left out

- Rendering is left out: the WebGL renderer, effect composer, bloom, camera, orbit controls and `render`. So is adding lights to and removing them from the scene. None of them affects colours.
- The frustum is a parameter `visible`. Its construction from the camera matrices is three.js geometry.
- `createLight`'s placement is a parameter `place`, because it is trigonometry over `Math.random`. Its sphere mesh and radius are left out too.
- `Math.random`'s distribution is not modelled. A draw is any number in `[0, 1)`.
- `Math.cos` is the parameter `cosPhase`, constrained only by range, values and symmetry.
- `Vector3.normalize` and `length` (square roots) are not modelled. Alpha is computed as `abs(v . g) / (g . g)`, which equals `|proj_g(v)| / |g|` in exact arithmetic. `GradientAxis.AxisIgnoresDirectionScale` shows that normalising the direction would not change the axis.
- IEEE-754 rounding, infinities and `NaN` are not modelled. The exception is the `0 / 0` of the gradient and wave alpha on a zero-length axis, which `GradientAxis.AlphaAsWritten` models as `None`. Arithmetic is exact.
- three.js colour parsing of `ColorRepresentation` and colour management are not modelled. A colour is an RGB triple, and `0x101010` is `16/255` per channel.
- JavaScript reference identity of `Color` objects is not modelled. `setColor`'s skip compares by value, which gives the same displayed colour.
- The monkey-patching of `Array.prototype` is not modelled. `resize` is a function on sequences.
- src/main.ts is not part of this model. It is an earlier stand-alone prototype without animators.
- ColorMixed.ColorLight: requires a light index the colours were sized for. The original would hand `undefined` to `setColor`.
- Animators.ColorLight: requires the animator to be prepared for the frame (`Ready`) and the light to be one of the frame's lights. For the gradient, the light must be inside the box. Outside these conditions the original reads `undefined` or outside the palette. The gradient and wave branches use the corrected alpha, so a zero-length axis still gives a colour.
- ColorGradient.ColorLight: requires the light's alpha to lie in `[0, 1]`. `ColorGradient.ColorLightAsWritten` models the other case.
- ThreeUtils.LerpGradient: requires alpha in `[0, 1]`. Outside it the original indexes past the palette. The gradient and the wave supply such an alpha only through the corrected `GradientAxis.Alpha`. On a zero-length axis the original passes `NaN`, and the `ColorLightAsWritten` members of both animators model that case.
- ColorWave.ColorLight: requires a positive cycle length and a non-negative scale, which the constructor does not check. With a zero cycle `t / 0` is infinite or `NaN`, `% 1` gives `NaN` and the palette lookup reads `colors[NaN]`. With a negative scale the truncating `% 1` is negative and the palette lookup reads before the array. It also uses the corrected alpha `0` on a zero-length axis, where the original's alpha is `NaN` and no colour results. `ColorWave.ColorLightAsWritten` models that case (see Findings).
- ColorShift.ColorLight: requires a positive cycle length and at least two colours, which the constructor does not check.
- ColorBreathing.ColorLight: requires a positive cycle length and at least one colour, which the constructor does not check.
- BlinkingStars.PrepareUpdate: requires a positive interval and a star share between `0` and all lights. With a share above all lights or a non-positive interval the original's loops never end. With a negative share the star count is negative, and `splice` of a negative start removes only the last stars rather than all of them. `ArrayExtensions.Resize` takes only non-negative sizes, so that case is not modelled.
- BlinkingStars.CreateStarLight: picks any free candidate light rather than modelling the rejection loop's draws. With no lights the only candidate is `0`, as in the original.
- TreeApp.SetTreeRadius: requires the current radius to be non-zero. The original divides by it.
- TreeApp.SetTreeHeight: requires the current height to be non-zero. The original divides by it.
- TreeApp.SetTreeRadiusKeepsCoherent: stated only for a new radius of the same sign as the old. A negative factor flips the box's corners, and the box then no longer matches the recomputed one.
- TreeApp.SetTreeHeightKeepsCoherent: stated only for a new height of the same sign as the old, for the same reason.
- TreeApp.Update: `update` also calls `controls.update()`, which is left out with the camera. The frame colours with `Animators.ColorLight`, so it inherits the corrected wave and gradient alpha, and a host that still has the constructor's off animator shows it black, not white.
- TreeApp.LateGradientHasNoAxis: follows the installed gradient through the contexts of later frames, not the whole host through `update`. `TreeApp.Update` requires a coherent host, which the as-written `setAnimator` does not leave.
- TreeApp.Create: installs the corrected, black off animator `TreeApp.Off`. The original installs `OFF_ANIMATOR`, which shows white (see Findings, `TreeApp.OffAsWritten`).

## Findings

| source | as written | input that shows it | evidently intended | confidence | as-written member | corrected member |
|---|---|---|---|---|---|---|
| src/effects/color_gradient.ts:37-40 | The alpha divides by the axis length, which is `0` when the bounding box is a point. | A gradient over a single light: the box is `[p, p]`, so alpha is `0 / 0`, i.e. `NaN`, and `lerpGradient` reads `colors[NaN]`. | A collapsed box gives a constant alpha `0`. | not executed | GradientAxis.SingleLightAlphaIsNaN | GradientAxis.Alpha |
| src/effects/color_wave.ts:38-41 | The wave's alpha divides the projection's length by the axis length, which is `0` when the box has no extent along the direction. | A wave over a single light: the box is `[p, p]`, so alpha is `0 / 0`, `NaN * scale % 1` stays `NaN`, and `lerpGradient` reads `colors[NaN]`, which is `undefined`. | A zero-length axis gives the constant alpha `0`, as for the gradient. | not executed | ColorWave.ColorLightAsWritten | ColorWave.ColorLight |
| src/app.ts:199-203 | `setAnimator` raises only the light-count flag. | Install a new gradient or wave animator after the first frame. Its `prepareUpdate` does not see the box flag until the box next changes (`setupLights` with a new count, `setTreeRadius` or `setTreeHeight`). Until then its origin stays undefined and `colorLight` computes with `undefined`. | Raise the box flag too, so the new animator computes its axis. | not executed | TreeApp.LateGradientHasNoAxis | TreeApp.SetAnimatorKeepsCoherent |
| src/app.ts:20 | The off animator is built as `new StaticColorAnimator({color: 0})`, so the colour is made from an object three.js does not parse. It keeps its default, white. | `setAnimator(undefined)` lights every light full white instead of off. | The off animator shows black, i.e. the off colour once capped. | not executed | TreeApp.OffAsWrittenShowsWhite | TreeApp.OffShowsOffColor |
