# Starfield engine — a verified Dafny model

This project models the starfield engine of `bewegrs`, in `crates/stars/src/lib.rs`, together with four small pieces of the UI library:
- the clickable button;
- the frame counters;
- the info-display switcher;
- the rounded-rectangle point source.

The starfield keeps an array of stars sorted farthest first. Every frame it does four things:
1. It moves each star toward the camera. A star that leaves the depth range respawns at the other end.
2. Every sixth frame, while moving, it re-sorts the array.
3. It decides which circular slices of the array to redraw. Stars near the *nearest-index cursor* are redrawn every frame, farther ones every 2, 4 or 8 frames. The cursor is the last index whose star is behind the camera.
4. It merges those slices and rewrites the four vertices of every scheduled star in a CPU-side vertex mirror.

Pressing W or S changes the speed. When the speed reaches exactly zero, the next frame is a *keyframe*, which redraws the whole array.

Modules, one per file:

- `Graphics`: colours, `u8` saturating subtraction, vectors, vertices, `Option`.
- `StarModel`: one star. It covers the depth step with wrap-around, the visibility test, the `f32 as u8` brightness cast and the four vertices of its quad.
- `DepthSort`: the stable depth-descending sort.
- `Ranges`: half-open index ranges and `merge_ranges`.
- `Scheduler`: the tier loop of `get_update_ranges`, with the integer arithmetic of its circular bands.
- `Starfield`: the class `Stars`. Its fields are the star array, the vertex mirror (an `array<Vertex>`), the speed, the last sorted frame and the keyframe flag. Its methods are the constructor, the sort, the speed adjustment, the star step, the vertex writers, the scheduler entry point, the frame step and the key handler.
- `Counters`, `Clickable`, `Info`, `RectRound`: the UI pieces.

Floating-point values are `real`. The projected and rotated corner of a star is a function-valued constant of the `Stars` object, `corner`, which the model does not interpret. Random respawn positions and the random initial stars are parameters.

Behaviour of the code worth noting:
- **Shift+Space** (`crates/stars/src/lib.rs:724-731`) sets the speed to zero directly. It neither sets the keyframe flag nor sorts.
- **The `frame` argument of `adjust_speed`** is passed the fps limit, not the frame number (`crates/stars/src/lib.rs:713`, `:721`). So the "last sorted frame" recorded when the speed reaches 0 is the fps limit.
- **The speed clamp** is ±60, `DEFAULT_MAX_FPS`, whatever the fps limit (`crates/stars/src/lib.rs:489-491`).
- **Tier frame intervals** are `ceil(interval * fps / 60)` (`crates/stars/src/lib.rs:565-567`), so a tier may refresh on frames that are not a multiple of its table interval.
- **Brightness** is truncated and saturated by the `as u8` cast, not rounded (`crates/stars/src/lib.rs:339-340`).
- **Band counts.** The model computes them as exact ceilings `ceil(n * p / 100)`. With 100 stars and the cursor at 5 it gives the second tier the range `[75, 95)` (`Scheduler.WrapAroundExample`). The f32 code (`crates/stars/src/lib.rs:573-579`) gives `[74, 95)`, because `100 * 0.3f32` rounds to slightly above 30 and its ceiling is 31.

## Model

All paths are relative to the repository root.

| member | source | states |
|---|---|---|
| Graphics.SaturatingSub | crates/stars/src/lib.rs:347-349 | `u8::saturating_sub`: the result never exceeds the minuend; it is the difference, or 0 when that would be negative |
| StarModel.IsVisible | crates/stars/src/lib.rs:311-315 | `NEAR / d > 0.001` holds exactly for depths in `[0, 1000 * NEAR)`; depth 0 (+infinity in f32) counts as visible |
| StarModel.VisibilityBound | crates/stars/src/lib.rs:311-315 | for non-zero depth the quotient test is equivalent to `0 < d < 1000 * NEAR` |
| StarModel.Update | crates/stars/src/lib.rs:289-309 | after a step the depth is in `[-BEHIND_CAMERA, FAR_PLANE]` and `active` agrees with the visibility test; depth ≤ -BEHIND respawns at FAR at the new position; else depth ≥ FAR respawns at -BEHIND; otherwise it keeps the moved depth and its position; the rotation advances by its rate |
| StarModel.PausedUpdate | crates/stars/src/lib.rs:289-315 | at speed 0, a star strictly inside the range keeps depth and position, still rotates, and is active exactly when its depth is ≥ 0 |
| StarModel.PausedFramesKeepDepth | crates/stars/src/lib.rs:289-309 | any number `k` of paused frames keeps depth, position and `active`, and turns the star by `k` times its rate |
| StarModel.CastU8 | crates/stars/src/lib.rs:340 | the `f32 as u8` cast: 0 for values ≤ 0, 255 for values ≥ 255, truncation in between |
| StarModel.CastMonotone | crates/stars/src/lib.rs:340 | the cast is monotone |
| StarModel.Brightness | crates/stars/src/lib.rs:338-340 | full brightness 255 at or in front of the near plane, 0 at or beyond the far plane |
| StarModel.BrightnessMonotone | crates/stars/src/lib.rs:339-340 | farther stars are never brighter; depth ≤ NEAR gives 255 and depth FAR gives 0 |
| StarModel.AdjustedColor | crates/stars/src/lib.rs:345-350 | opaque, every channel ≤ the sprite's channel; full brightness keeps the sprite colour, zero brightness gives black |
| StarModel.QuadVertex | crates/stars/src/lib.rs:318-392 | an inactive star only turns the vertex transparent, keeping position and texture coordinates; an active one writes the rotated corner, the adjusted colour and the texture corner `(0,0), (tx,0), (tx,ty), (0,ty)` |
| StarModel.QuadVertexIdempotent | crates/stars/src/lib.rs:318-392 | writing a star's vertex twice equals writing it once |
| DepthSort.Insert | crates/stars/src/lib.rs:483-487 | insertion adds exactly one star to the multiset |
| DepthSort.InsertSorted | crates/stars/src/lib.rs:483-487 | inserting into a depth-sorted sequence keeps it sorted |
| DepthSort.SortByDepth | crates/stars/src/lib.rs:483-487 | the sort is a permutation of the stars, in non-increasing depth |
| DepthSort.SortSortedIsIdentity | crates/stars/src/lib.rs:483-487 | sorting an already sorted array changes nothing |
| DepthSort.SortIdempotent | crates/stars/src/lib.rs:483-487 | sorting twice equals sorting once |
| DepthSort.SortKeepsMembers | crates/stars/src/lib.rs:483-487 | a star is in the sorted array exactly when it was in the input |
| Ranges.InsertByStart | crates/stars/src/lib.rs:620 | inserting adds exactly one range to the multiset |
| Ranges.InsertByStartSorted | crates/stars/src/lib.rs:620 | inserting into a start-sorted list keeps it sorted |
| Ranges.SortByStart | crates/stars/src/lib.rs:620 | `sort_by_key(start)` gives a permutation sorted by start |
| Ranges.SortByStartSortedIsIdentity | crates/stars/src/lib.rs:620 | the stable sort returns a start-sorted list unchanged |
| Ranges.PermutationSameCover | crates/stars/src/lib.rs:620 | reordering ranges does not change the covered indices |
| Ranges.MergeRanges | crates/stars/src/lib.rs:614-657 | at most one range: returned unchanged; otherwise 1 to `|input|` ranges, sorted by start, each ending strictly before the next starts; the covered indices equal the input's; well-formed inputs within `[0, n]` give outputs within `[0, n]`; a list already sorted by start and strictly apart is returned unchanged |
| Ranges.MergeTwice | crates/stars/src/lib.rs:614-657 | merging the result of a merge gives it back: the merge is idempotent, and the result keeps the input's cover |
| Ranges.Sweep | crates/stars/src/lib.rs:623-637 | the sweep over start-sorted ranges gives sorted, strictly separated ranges covering the same indices; on strictly separated input it returns the input |
| Ranges.SweepAdvance | crates/stars/src/lib.rs:625-634 | a range starting at or before the current end extends it to the larger end; any other range pushes the current range and becomes the current one |
| Ranges.SweepStep | crates/stars/src/lib.rs:625-634 | one absorb-or-push step keeps sortedness, separation, bounds and the covered set in step with the ranges read |
| Ranges.SweepStepShape | crates/stars/src/lib.rs:625-634 | one step keeps the ranges sorted, separated and in bounds |
| Ranges.SweepStepCover | crates/stars/src/lib.rs:625-634 | one step adds exactly the indices of the range read |
| Ranges.JoinAdjacent | crates/stars/src/lib.rs:639-654 | the post-sweep join pass as written never lengthens the list, and on strictly separated input (the sweep's output) returns it unchanged |
| Scheduler.CeilDiv | crates/stars/src/lib.rs:577-578 | the ceiling of `a / b`: the least `r` with `r * b ≥ a` |
| Scheduler.CeilDivMonotone | crates/stars/src/lib.rs:577-578 | the ceiling grows with the numerator |
| Scheduler.FrameInterval | crates/stars/src/lib.rs:565-568 | exactly the ceiling of `interval * fps / 60` (the least `r` with `r * 60 ≥ interval * fps`), ≥ 1 when interval and fps are, so the `assert_ne!` holds |
| Scheduler.Back | crates/stars/src/lib.rs:578-583 | the circular distance of an index behind the cursor lies in `[1, n]` |
| Scheduler.TierRanges | crates/stars/src/lib.rs:573-592 | one firing tier's ranges with the corrected wrap test: one or two ranges within `[0, n]`; `TierRangesExact` shows they cover exactly the band |
| Scheduler.TierRangesAsWritten | crates/stars/src/lib.rs:573-592 | one firing tier's pushed ranges with the wrap test as written: one or two ranges, all within `[0, n]` |
| Scheduler.Schedule | crates/stars/src/lib.rs:564-593 | the ranges of the firing tiers in table order (corrected wrap test): within `[0, n]`, at most two per tier; `ScheduleExact` shows they cover exactly the firing bands |
| Scheduler.ScheduleTiers | crates/stars/src/lib.rs:564-592 | the tier loop yields the ranges of the firing tiers in table order; they lie in `[0, n]` and cover exactly the indices in the bands of the firing tiers |
| Scheduler.PushTierRanges | crates/stars/src/lib.rs:585-592 | the loop body for a firing tier appends exactly that tier's ranges, with the corrected wrap test |
| Scheduler.ScheduleExact | crates/stars/src/lib.rs:564-592 | the collected ranges are in bounds and an index is covered iff some firing tier's band contains it |
| Scheduler.TierRangesExact | crates/stars/src/lib.rs:573-592 | a firing tier's one or two ranges are in bounds and cover exactly its band: the indices more than `ceil(n*lo/100)` and at most `ceil(n*hi/100)` places behind the cursor |
| Scheduler.BandCountsOrdered | crates/stars/src/lib.rs:577-578 | band counts grow with the percentage, stay ≤ n and reach n at 100% |
| Scheduler.ModOffset | crates/stars/src/lib.rs:581-583 | the double remainder `((x % n) + n) % n` of `x - c` in closed form |
| Scheduler.TierEnds | crates/stars/src/lib.rs:578-583 | the two range ends in closed form with the cursor reduced modulo n |
| Scheduler.BackFormula | crates/stars/src/lib.rs:578-583 | the circular distance in closed form |
| Scheduler.TierRangeAt | crates/stars/src/lib.rs:585-592 | for one index: covered by the tier's ranges iff in its band |
| Scheduler.BandArithmetic | crates/stars/src/lib.rs:585-592 | the split or single range contains exactly the indices whose distance behind the cursor lies in `(L, H]` |
| Scheduler.UpdateTiersPartition | crates/stars/src/lib.rs:40-45 | the four bands of `UPDATE_TIERS` follow each other from 0 to n without gap; every tier is valid |
| Scheduler.AllTiersCoverAll | crates/stars/src/lib.rs:444-446 | on a frame on which every tier fires, as on frame 0 in the constructor, the scheduled ranges (corrected wrap test) cover every index |
| Scheduler.FrameZeroSchedulesAll | crates/stars/src/lib.rs:444-446 | frame 0 schedules every star, whatever the cursor |
| Scheduler.FrameZeroFiresAll | crates/stars/src/lib.rs:444-445 | every tier fires on frame 0 |
| Scheduler.Every8thFrameAt60 | crates/stars/src/lib.rs:40-45 | at 60 fps the intervals are 1, 2, 4, 8, so every eighth frame fires every tier |
| Scheduler.WrapAroundExample | crates/stars/src/lib.rs:585-592 | 100 stars, cursor 5, exact band counts: the first tier wraps into `(95,100), (0,5)`, the second gives `(75,95)` (the f32 code gives `(74,95)`, see Left out) |
| Scheduler.AsWrittenSingleStarUnscheduled | crates/stars/src/lib.rs:585-592 | as written, with one star every tier yields only the empty range `(0,0)`, although the star is in the first band |
| Scheduler.AsWrittenEmptyBandSchedulesAll | crates/stars/src/lib.rs:585-592 | as written, with three stars and cursor 2, the empty band `[10,30)` yields `(1,3), (0,1)`, i.e. every star |
| Scheduler.AsWrittenAgreesFrom4 | crates/stars/src/lib.rs:573-592 | from four stars on, every tier of the table gives the same ranges under the written and the corrected wrap test |
| Scheduler.AsWrittenAgreesAwayFromEqualEnds | crates/stars/src/lib.rs:585-592 | the written and corrected wrap tests agree whenever `start ≠ end` |
| Scheduler.SingleStarScheduled | crates/stars/src/lib.rs:585-592 | with the corrected test a single star is covered by the first tier |
| Starfield.Clamp | crates/stars/src/lib.rs:491 | `f32::clamp`: within the bounds, the identity inside them, the violated bound outside |
| Starfield.AdjustedSpeed | crates/stars/src/lib.rs:489-491 | the new speed lies in `[-60, 60]`; it equals `speed + add * (10 with the modifier, else 1)` when that is in range, and the bound it exceeds otherwise |
| Starfield.SpeedKeys | crates/stars/src/lib.rs:706-723 | from 0.8, W then Shift+W gives 1.9; Shift+W at 60 stays at 60 |
| Starfield.FindIndexZeroDistance | crates/stars/src/lib.rs:451-459 | a star is found iff some depth is < 0; then the index is the last such and the star is that one; otherwise `(0, None)` |
| Starfield.CursorOnSortedArray | crates/stars/src/lib.rs:451-459 | on a depth-sorted array the cursor is the last index if any star is behind the camera, else 0 |
| Starfield.Advanced | crates/stars/src/lib.rs:667-673 | the star loop applies `Star::update` to every star, keeping the length |
| Starfield.SlotsPartitionMirror | crates/stars/src/lib.rs:321-329 | every slot of a `4n` mirror is slot `j < 4` of exactly one star `k < n` |
| Starfield.Stars.constructor | crates/stars/src/lib.rs:396-449 | the stars are the sorted initial stars, speed 0.8, no keyframe, last sort 0, and every star's four slots hold its freshly written quad (corrected wrap test; see Left out) |
| Starfield.Stars.Sort | crates/stars/src/lib.rs:483-487 | the stars become their depth sort and the frame is recorded; the star invariant is kept |
| Starfield.Stars.AdjustSpeed | crates/stars/src/lib.rs:489-498 | the speed becomes the clamped adjusted speed; exactly at 0 the keyframe flag is set and the stars are sorted with the given frame; otherwise stars and last sort are unchanged |
| Starfield.Stars.AdvanceStars | crates/stars/src/lib.rs:667-673 | every star takes one step; the star invariant is kept |
| Starfield.Stars.UpdateVertices | crates/stars/src/lib.rs:318-392 | star k's four slots receive its quad; every other star's slots are unchanged |
| Starfield.Stars.UpdateVertexRanges | crates/stars/src/lib.rs:500-546 | empty ranges are skipped; a star's slots receive its quad iff some range covers it, and are unchanged otherwise |
| Starfield.Stars.GetUpdateRanges | crates/stars/src/lib.rs:548-612 | on a keyframe: exactly `[(0, n)]` and the flag is cleared; otherwise in bounds, sorted, strictly separated, and covering exactly the indices of the firing tiers' bands (corrected wrap test; see Left out) |
| Starfield.Stars.Update | crates/stars/src/lib.rs:661-683 | sorts iff the frame is a multiple of 6 and the speed is non-zero, steps every star, clears the keyframe flag, and rewrites exactly the scheduled stars' slots (all of them after a keyframe), leaving every other slot unchanged (corrected wrap test; see Left out) |
| Starfield.Stars.ProcessEvent | crates/stars/src/lib.rs:706-734 | W/S adjust the speed by ±0.1 (×10 with Shift), passing the fps limit as the frame to record; Shift+Space sets speed 0 without keyframe or sort; other events change nothing |
| Counters.RingPush | src/counters.rs:80-83 | a push keeps the latest `min(len + 1, 60)` samples of the ring followed by the new one |
| Counters.RingKeepsLatest | src/counters.rs:24 | after any pushes the ring holds exactly the latest `min(total, capacity)` samples, never more than the capacity |
| Counters.LazyFramesExact | src/counters.rs:44-56 | after k ticks the snapshot frame is `k - k % 60`: a multiple of 60 at most 59 behind |
| Counters.Counters.Start | src/counters.rs:30-39 | all counters zero, the ring empty |
| Counters.Counters.Tick | src/counters.rs:40-57 | frames increases by 1, seconds is the clock reading; on multiples of 60 the frames and seconds snapshots are taken together, otherwise both are kept; the snapshot invariant holds |
| Counters.Counters.DFrames | src/counters.rs:59-61 | frames since the snapshot, < 60, and it never underflows |
| Counters.Counters.DSeconds | src/counters.rs:63-65 | seconds since the snapshot |
| Counters.Counters.Fps | src/counters.rs:67-74 | 60 when no time has passed since the snapshot, otherwise `dframes / dseconds` |
| Counters.Counters.TickDone | src/counters.rs:80-83 | one sample, the frame's duration in milliseconds, is pushed onto the ring |
| Info.Next | src/ui/elements/info.rs:17-25 | Overlay→None, None→Egui, Egui→Overlay; never the same variant |
| Info.NextCycle | src/ui/elements/info.rs:17-25 | k switches return to the start iff k is a multiple of 3 |
| Info.AllTypesReachable | src/ui/elements/info.rs:9-25 | every variant is reached from the default within two switches |
| Info.InfoElement.constructor | src/ui/elements/info.rs:42-45 | a new element starts at the default variant None |
| Info.InfoElement.NextType | src/ui/elements/info.rs:84-86 | exactly one `next` |
| Clickable.ContainsPoint | src/ui/nativeui/elements/clickeable.rs:142-150 | inclusive bounds test on all four sides |
| Clickable.Appearance | src/ui/nativeui/elements/clickeable.rs:90-101 | pressed colours over hovered colours over idle colours |
| Clickable.AppearancesDistinct | src/ui/nativeui/elements/clickeable.rs:90-101 | the three appearances differ, so the colours identify the displayed state |
| Clickable.HandleEvent | src/ui/nativeui/elements/clickeable.rs:152-154 | always handled |
| Clickable.Clickable.NewRectRound | src/ui/nativeui/elements/clickeable.rs:19-34 | a rounded-rect shape, fill (80,80,80), outline (120,120,120), thickness 4, neither hovered nor pressed |
| Clickable.Clickable.Update | src/ui/nativeui/elements/clickeable.rs:55-88 | move: hovered := contains, and a press outside is cancelled; press: pressed only if inside, hover untouched; release: click iff pressed and inside, then released; other: nothing; colours refreshed only when a flag changed, and always match the state |
| Clickable.Clickable.UpdateAppearance | src/ui/nativeui/elements/clickeable.rs:90-101 | the colours become those of the current state |
| Clickable.NoClickWithoutPress | src/ui/nativeui/elements/clickeable.rs:55-88 | starting released, events without a press inside leave the button released, so no release reports a click |
| RectRound.ClampedRadius | src/shapes/rectround.rs:15-17 | the radius is at most the requested one and at most half of each side, and unchanged when it already fits |
| RectRound.BasicShape | src/shapes/rectround.rs:30-41 | the given size, the clamped radius, 8 points per corner |
| RectRound.New | src/shapes/rectround.rs:14-28 | the basic shape's points with outline thickness 3 |
| RectRound.WithCornerPoints | src/shapes/rectround.rs:43-46 | points per corner become `max(points, 4)`; nothing else changes |
| RectRound.PointCount | src/shapes/rectround.rs:50-53 | four times the points per corner; at least 16 for every reachable shape |
| RectRound.RefinedReachable | src/shapes/rectround.rs:43-46 | a chain of `with_corner_points` keeps size and radius, keeps ≥ 4 points per corner, and the last call decides |
| RectRound.ConstructedShapesReachable | src/shapes/rectround.rs:30-53 | every constructed shape has ≥ 4 points per corner, so `point_count` ≥ 16 and `point` never divides by zero |
| RectRound.PointIndex | src/shapes/rectround.rs:55-64 | panics (None) iff `index >= point_count`; otherwise `quarter < 4`, `i < ppc` and `quarter * ppc + i == index` |
| RectRound.PointParts | src/shapes/rectround.rs:55-85 | as `PointIndex`, with the centre of the indexed corner |
| RectRound.CentersInside | src/shapes/rectround.rs:78-85 | with `0 ≤ r ≤ side/2`, every corner centre satisfies `r ≤ cx ≤ w - r` and `r ≤ cy ≤ h - r` |
| RectRound.BasicShapeCentersInside | src/shapes/rectround.rs:30-85 | for a basic shape with non-negative radius and sides, every valid point's corner centre lies radius-inside the rectangle |

## Left out

- Randomness: `randomize`, `rand_pos` and `rand_distance` are not modelled. The initial stars are a constructor parameter, required to be active with a depth in `[NEAR_PLANE, FAR_PLANE)`, as `rand_distance` gives. Respawn positions are a parameter of `Update`.
- Floating point: f32 values are `real`, so rounding is not modelled. In the source, speed hits exactly 0 only for particular sequences of presses. The band count `(n as f32 * p_f32).ceil()` can be one star more than the exact `ceil(n * p / 100)` at tier boundaries, already for small `n`: 25, 45, 50, 85, 90 and 100 among others. The interval `ceil(interval * fps / 60)` is exact for every realistic fps limit.
- Scheduler.WrapAroundExample: states the exact-ceiling ranges `(95,100), (0,5)` and `(75,95)`. The f32 code gives the second tier `(74,95)`, because its band count for 30% of 100 stars is 31. f32 rounding is not modelled, as the line above says.
- Projection and rotation: the perspective-scaled, rotated corner of a star (`cos`/`sin`) is the uninterpreted constant `corner`.
- Rounded-rect angles, `cos` and `sin` in `point` are not modelled. So are `a_frame_time` (a float average) and `hue_time`.
- Concurrency: the rayon chunk loops are sequential loops over the same disjoint index ranges, and the `unsafe` aliasing helper is not modelled.
- Starfield.Stars.UpdateVertexRanges: the GPU upload of each range (`VertexBuffer::update`), and the early return when an upload fails, are not modelled. The vertex mirror is the whole state.
- Starfield.Stars.Update: upload errors, swallowed in the source, and the debug logging every 47 frames are not modelled.
- Starfield.Stars.constructor: requires a non-empty star array and an fps limit of at least 1. The source panics otherwise, on `% 0` on frame 0 and on the interval assertion. Texture creation and the vertex buffer are not modelled.
- Scheduler.ScheduleTiers: uses the corrected wrap test described under Findings, not the one as written. `Scheduler.TierRangesAsWritten` models the written test.
- Scheduler.PushTierRanges: corrected wrap test (`BandCount(lo) != BandCount(hi)` instead of `!(start == 0 && end == 0)`); identical to the code for n ≥ 4 (`Scheduler.AsWrittenAgreesFrom4`).
- Scheduler.AllTiersCoverAll: corrected wrap test; identical to the code for n ≥ 4 (`Scheduler.AsWrittenAgreesFrom4`). With one star the written test covers nothing (first Findings row).
- Starfield.Stars.constructor: corrected wrap test; identical to the code for n ≥ 4 (`Scheduler.AsWrittenAgreesFrom4`). With one star the code leaves the star's four slots blank (first Findings row).
- Starfield.Stars.GetUpdateRanges: corrected wrap test; identical to the code for n ≥ 4 (`Scheduler.AsWrittenAgreesFrom4`).
- Starfield.Stars.Update: corrected wrap test; identical to the code for n ≥ 4 (`Scheduler.AsWrittenAgreesFrom4`). For n ≤ 3 the code may rewrite a different set of slots.
- Counters.Counters.Tick: `frames` is unbounded, so the `u64` wrap after 2^64 frames is not modelled. The console output is also left out.
- Clickable.Clickable.Update: the pointer test is the parameter `contains`, because the shape's global bounds come from SFML. The label text (`with_text`), `set_position` and drawing are not modelled.
- Info: the overlay text, `prepare_draw`, `draw_with` and `update_slow` are not modelled.
- Windowing, input dispatch, drawing, the command line (`stars()`), the physics wrappers and the demo programs are outside the core.

## Findings

| source | as written | input that shows it | evidently intended | confidence | as-written member | corrected member |
|---|---|---|---|---|---|---|
| crates/stars/src/lib.rs:585-592 | `start >= end && !(start == 0 && end == 0)` decides whether a tier's range wraps | one star, any cursor: every tier yields `(0,0)`, which is skipped, so the lone star's quad is written neither by the constructor nor by any later frame except a keyframe | a band of non-zero width wraps when `start >= end`, so a band spanning the whole array yields the whole array | not executed | Scheduler.AsWrittenSingleStarUnscheduled | Scheduler.SingleStarScheduled |
| crates/stars/src/lib.rs:585-592 | the same test treats `start == end != 0` as a wrap | three stars, cursor 2: tier `[10,30)` has an empty band (both counts are 1), yet yields `(1,3), (0,1)`, scheduling every star | an empty band yields nothing | not executed | Scheduler.AsWrittenEmptyBandSchedulesAll | Scheduler.TierRangesExact |
