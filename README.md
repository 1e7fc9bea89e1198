# svis integer rasterizer, modelled in Dafny

svis renders top-down and edge-on maps of the solar system into a row-major
RGB framebuffer and saves each one as a plain PPM ("P3") text file. This
project models the exact, integer part of that renderer, all in `main.cpp`:

- `drawLine`: the all-octant Bresenham walk. It drops a segment that has a
  negative endpoint coordinate, checks every pixel against the screen and
  stops after an iteration cap of `2 * max(screen_x, screen_y)`.
- `drawCircle`: a filled disk, clipped to the screen.
- `drawChar` and `drawText`: 8x8 glyphs. Bit 0 of a row byte is the leftmost
  pixel, and each character advances the pen by 8 pixels.
- `drawRedCrosshair`: four 5-pixel arms that start 3 pixels from the centre
  of a square screen.
- `getNextLargerOrRetain`: the `std::upper_bound` lookup that picks the
  auto-framing radius from the table of planetary semi-major axes.
- The P3 writer at the end of `renderSolarSystem`: the header, then one text
  line per row of `r g b ` triples.

Files:

- `raster.dfy` (module `Raster`) holds the framebuffer. The image is an
  `array<Color>` of `w * h` slots, and pixel (x, y) lives at slot `y * w + x`.
- Every drawing method is specified by `Overlay(old(img[..]), w, mask, color)`.
  `Overlay` is the old image with `color` written at every on-screen pixel
  of `mask` and every other slot unchanged. The mask is the set of pixels the
  routine visits, stated without reference to its loops. `Plot` is the
  guarded write `if (0 <= x < w && 0 <= y < h) img[y*w + x] = color` that
  drawLine, drawCircle and drawChar share. The crosshair arms test one axis
  only and write the array directly.
- `line.dfy` (module `Line`): `Walk` replays the Bresenham loop one pass at a
  time. It is the reference against which the imperative `DrawLine` is
  proved, and the geometric lemmas are proved about it.
- `shapes.dfy` (module `Shapes`) covers `drawCircle`, `drawRedCrosshair` and
  the culled-marker quirk.
- `glyphs.dfy` (module `Glyphs`) covers `drawChar` and `drawText`. The font
  is a parameter: 128 glyphs of 8 bytes each.
- `ppm.dfy` (module `Ppm`) holds the P3 text. `PlainPpm` is the text as a
  function of the pixels, and the method `WritePlain` runs the writer's
  nested loops and is proved to produce it.
- `ParsePlain` is an independent reader: a whitespace tokenizer and a
  decimal parser. The round trip through it is proved.
- `framing.dfy` (module `Framing`) covers `getNextLargerOrRetain` and the
  framing radius `R_max`.

Three behaviours of the code are easy to miss. The model follows the code in
each:

- The loop of `drawLine` plots up to `2 * max(w, h) + 1` pixels, not
  `2 * max(w, h)`. The cap test comes after the increment, so one more pass
  runs.
- `drawText` looks every character up in a 128-entry table, so only
  characters below 128 are valid. The model makes this a precondition.
- Major-body markers are drawn even when their projection is the culled
  sentinel (-1, -1), and such a disk paints the corner pixel (0, 0). Only the
  minor-planet marker is skipped when culled.

## Model

| member | source | states |
|---|---|---|
| Raster.Overlay | main.cpp:724-728 | the framebuffer after painting a set of pixels keeps its size |
| Raster.OverlaySlot | main.cpp:724-728 | slot i holds `color` when the pixel at slot i is painted and its old value otherwise |
| Raster.OverlayAt | main.cpp:695-699 | an on-screen pixel (x, y) sits at slot y*w + x, which is within the buffer, and holds `color` exactly when it is painted |
| Raster.PixelIndex | main.cpp:726-727 | y*w + x is a bijection between on-screen pixels and the slots 0 .. w*h-1 |
| Raster.SlotsOnScreen | main.cpp:697 | every slot of a w*h buffer is the index of an on-screen pixel |
| Raster.OverlayExtend | main.cpp:724-728 | painting one more pixel changes exactly its slot when it is on screen, and nothing when it is off screen |
| Raster.OverlayTwice | main.cpp:680 | drawing two shapes in the same colour, one after the other, is drawing their union |
| Raster.OverlayOffScreen | main.cpp:724 | a shape with no on-screen pixel leaves the framebuffer unchanged |
| Raster.Plot | main.cpp:724-728 | the bounds-checked write: the image becomes the overlay with (x, y) added |
| Line.Plan | main.cpp:713-720 | the constants set before the loop: the target, a run `dx` that is never negative, a rise `dy` that is never positive, steps `sx` and `sy` of 1 or -1, and a cap of at least twice each screen side |
| Line.PlanSpansSegment | main.cpp:713-716 | `dx` steps of `sx` from x0 land on x1, and `-dy` steps of `sy` from y0 land on y1 |
| Line.Advance | main.cpp:735-746 | definition of one pass: with e2 = 2*err, x steps by sx when e2 >= dy, y steps by sy when e2 <= dx, and err gains dy and dx for those steps; its properties are in AdvanceMoves and AdvanceTracks |
| Line.Walk | main.cpp:719-753 | definition of the loop's pixel sequence: plot the cursor, stop on the target or once the pass counter exceeds the cap, otherwise advance; its properties are in WalkShape, WalkSteps, WalkInBox and WalkReaches |
| Line.LinePixels | main.cpp:705-755 | the pixels drawLine visits: none exactly when an endpoint has a negative coordinate, and otherwise starting at (x0, y0) |
| Line.DrawLine | main.cpp:705-755 | the new framebuffer is the old one with `color` written at every on-screen pixel of the walk and every other slot unchanged |
| Line.TraceLine | main.cpp:713-754 | the Bresenham loop, with the cap and the target test, paints exactly the pixels of the walk |
| Line.Step | main.cpp:735-746 | one pass's update of x, y and err, both tests on the same e2, is `Advance` |
| Line.NegativeEndpointDrawsNothing | main.cpp:708-711 | a segment with a negative endpoint coordinate leaves the framebuffer unchanged |
| Line.WalkShape | main.cpp:719-753 | the walk starts at the cursor, is at most cap + 1 pixels long, and ends on the target or after exactly cap + 1 pixels |
| Line.LinePassBound | main.cpp:719-753 | drawLine plots between 1 and 2*max(w, h) + 1 pixels, starting at (x0, y0); if it stops short of the target, the cap was used up |
| Line.WalkSteps | main.cpp:735-746 | consecutive pixels are 8-connected: x moves by 0 or sx, y by 0 or sy, and at least one of them moves |
| Line.BresenhamStep | main.cpp:735-746 | under the error invariant at least one axis steps, an axis that has arrived does not step, and the invariant is kept |
| Line.AdvanceTracks | main.cpp:735-746 | a pass keeps the error invariant and strictly shrinks the remaining distance to the target |
| Line.AdvanceMoves | main.cpp:735-746 | a pass takes one off the remaining distance along each axis that steps, and adds dy and/or dx to err |
| Line.WalkInBox | main.cpp:719-753 | under the invariant every plotted pixel lies between the cursor and the target |
| Line.WalkReaches | main.cpp:730-733 | when the cap leaves room for the remaining distance, the walk ends on the target |
| Line.StartTracks | main.cpp:713-717 | the initial dx, dy, sx, sy and err = dx + dy satisfy the error invariant |
| Line.LineInBoundingBox | main.cpp:713-754 | every pixel drawLine visits lies in the bounding box of its endpoints |
| Line.OnScreenLineComplete | main.cpp:705-755 | with both endpoints on screen, the walk runs from (x0, y0) to (x1, y1) in 8-connected steps, all on screen, without being cut off by the cap |
| Shapes.DrawCircle | main.cpp:685-703 | the new framebuffer is the old one with `color` written at every on-screen pixel within distance `radius` of the centre, and every other slot unchanged |
| Shapes.DiskScanComplete | main.cpp:687-691 | scanning dy and dx over -radius..radius reaches every point of the disk |
| Shapes.NegativeRadiusPaintsNothing | main.cpp:687 | a negative radius leaves the framebuffer unchanged |
| Shapes.DiskSymmetric | main.cpp:691 | the painted disk is symmetric about the centre's row and column |
| Shapes.CulledBodyPaintsCorner | main.cpp:947-961 | a marker of radius at least 2 drawn at the culled sentinel (-1, -1) paints pixel (0, 0) |
| Shapes.MinorPlanetMarkerCoversSquare | main.cpp:685-703 | drawCircle's default white marker of radius 3, as drawn for the minor planet at main.cpp:941, paints every on-screen pixel of the 5x5 square around its centre white |
| Shapes.DrawRedCrosshair | main.cpp:615-652 | the new framebuffer is the old one with red written at the on-screen points of the four arms at distance 3 to 7 from (n/2, n/2), and every other slot unchanged |
| Shapes.UpwardArm | main.cpp:621-627 | the upward loop paints (cx, cy-3) .. (cx, cy-7) in red, checking only y |
| Shapes.DownwardArm | main.cpp:629-635 | the downward loop paints (cx, cy+3) .. (cx, cy+7) in red, checking only y |
| Shapes.LeftArm | main.cpp:637-643 | the left loop paints (cx-3, cy) .. (cx-7, cy) in red, checking only x |
| Shapes.RightArm | main.cpp:645-651 | the right loop paints (cx+3, cy) .. (cx+7, cy) in red, checking only x |
| Shapes.CrosshairArms | main.cpp:617-651 | the four arms together are exactly the crosshair: the column and row through n/2, 3 to 7 pixels from the centre |
| Shapes.CrosshairLeavesCentre | main.cpp:622-651 | no pixel within 2 of the centre along both axes is painted |
| Glyphs.DrawChar | main.cpp:654-672 | pixel (x0 + col, y0 + row) takes `color` when bit `col` of row byte `row` is set and the pixel is on screen; every other slot is unchanged |
| Glyphs.GlyphPartStep | main.cpp:661-669 | one inner pass paints pixel (x0 + col, y0 + row) exactly when its bit is set |
| Glyphs.GlyphInCell | main.cpp:657-664 | a glyph paints only inside its 8x8 cell |
| Glyphs.DrawText | main.cpp:674-683 | the new framebuffer is the old one with the glyph of character i painted with its cell at (x + 8i, y) |
| Glyphs.TextPixelOwner | main.cpp:677-682 | a pixel is painted exactly when it lies in the row of cells and the glyph of character (px - x) / 8 has it set |
| Ppm.WritePlain | main.cpp:971-981 | the writer emits exactly `PlainPpm`: the header, then row y's triples in x order and a line break, for y from 0 to h - 1 |
| Ppm.WriteRow | main.cpp:975-979 | the inner loop emits the `r g b ` text of the w pixels of one row, left to right |
| Ppm.RowWritten | main.cpp:973-980 | one outer pass extends the text by exactly the next row of the body |
| Ppm.NatText | main.cpp:978 | definition of the decimal numeral of a natural number, most significant digit first; its properties are in NatTextDigits and NatTextValue |
| Ppm.IntText | main.cpp:978 | definition of the `<<` of an int: a '-' before the numeral of its magnitude when it is negative, the numeral alone otherwise |
| Ppm.PixelText | main.cpp:978 | definition of one pixel's text: its three channels, each followed by a space |
| Ppm.RowText | main.cpp:975-979 | definition of one row's text: its pixels' texts left to right, without the line break; its properties are in RowWords and RowHasNoBreak |
| Ppm.Body | main.cpp:973-980 | definition of the text of the rows: each row's text followed by a line break, top row first; its properties are in BodyWords and BodyLines |
| Ppm.Header | main.cpp:971 | definition of the header: "P3", then the width and height, then 255, each on its own line; HeaderWords reads it back |
| Ppm.PlainPpm | main.cpp:971-981 | definition of the whole file, the header followed by the body; its properties are in PlainPpmWords, PlainPpmLines and PlainPpmRoundTrip |
| Ppm.NatTextDigits | main.cpp:978 | a natural number prints as a non-empty run of digits without a leading zero |
| Ppm.NatTextValue | main.cpp:978 | reading a printed numeral gives back the number |
| Ppm.HeaderWords | main.cpp:971 | the header reads as the four words P3, w, h, 255 |
| Ppm.RowWords | main.cpp:975-979 | a row of in-range pixels reads as three channel words per pixel, in x order |
| Ppm.BodyWords | main.cpp:973-980 | the rows, top row first, read as the channel words of all pixels in row-major order |
| Ppm.PlainPpmWords | main.cpp:971-981 | the file reads as P3, w, h, 255 followed by the pixels' channels: 4 + 3*w*h words |
| Ppm.PlainPpmLines | main.cpp:971-981 | the file has exactly h + 3 line breaks: three header lines and one per row |
| Ppm.BodyLines | main.cpp:973-980 | the body has one line break per row |
| Ppm.RowHasNoBreak | main.cpp:978 | a row's text contains no line break |
| Ppm.ChannelsRoundTrip | main.cpp:975-979 | parsing the printed channels of in-range pixels gives the pixels back |
| Ppm.PlainPpmRoundTrip | main.cpp:971-981 | reading back the written file recovers w, h and every pixel when all channels are within 0..255 |
| Framing.UpperBound | main.cpp:989 | the search index: everything before it is at most `value`, and everything from it on is greater |
| Framing.NextLargerOrRetain | main.cpp:987-999 | the result is never below `value` |
| Framing.NextLargerIsLeastAbove | main.cpp:987-999 | the result is above `value` exactly when some entry is, and it is then the least such entry; otherwise it is `value` itself |
| Framing.FramingRadius | main.cpp:1084-1085 | R_max is at least 1.33 times the orbit's reach |
| Framing.FramingEnclosesOrbit | main.cpp:1082-1085 | R_max exceeds the orbit's reach. Inside Neptune's orbit it is 1.33 times the axis of a planet farther out; beyond Neptune it is 1.33 times the reach |
| Framing.MarsFramesEarthCrosser | main.cpp:1084-1085 | an orbit reaching between Earth's and Mars's axes is framed by Mars's axis |

## Left out

- Integer width: ints are unbounded. The source's 32-bit `int` could overflow
  in `2 * err`, `dx * dx + dy * dy`, `radius * radius` and `y * screen_x + x`
  for huge coordinates. The model does not capture that.
- Screen sizes: the drawing methods require `w > 0` and `h > 0`.
- Shapes.DrawRedCrosshair: requires `n > 0`. For `n = 0` the source writes
  nothing, but the model does not cover that case.
- The font table `font8x8_basic` (main.cpp:165-294) is data. It is taken as a
  parameter, a well-formed font of 128 glyphs of 8 bytes each.
- Glyphs.DrawText: requires every character to be below 128, the size of the
  table. Characters from 128 up, including negative `char` values, index
  outside it in the source.
- Ppm.PlainPpmRoundTrip: is proved only for channels within 0..255, the range
  the header declares. The writer itself prints any int, with a minus sign
  for negatives, and the model's writer does too.
- File output: the `std::ofstream` open, write and close are not modelled.
  `WritePlain` returns the text it would write. Any stream failure is not
  modelled.
- Framing.NextLargerOrRetain: doubles are modelled as exact reals.
  `std::upper_bound` is modelled as a search from the front. It returns the
  same position on an ascending table, but not with the same comparisons.
- Framing.FramingRadius: multiplies by the exact real 1.33, not its nearest
  double. The orbit's reach comes in as a parameter. `R_mp_max` is computed
  with `sqrt`, and `fit_dist` uses `tan`; neither is modelled.
- Marker radii: these are doubles passed to drawCircle's `int` parameter,
  which truncates them. The model takes the radius as an int.
- The culled-point projection, `space2screen`, is not part of this model.
  Only its sentinel (-1, -1) is used, in the quirk lemmas.
- Loop structure: the loop of drawLine runs in its own method `TraceLine`,
  after the negative-endpoint test. The update of one pass runs in `Step`.
  Each crosshair arm's loop runs in its own method, in the source's order,
  and the writer's inner loop runs in `WriteRow`. The statements in each
  loop are the source's.
- Everything else in main.cpp is not part of this model: the Kepler and
  orbit numerics, projection, SPICE calls, star catalogue and state-file
  parsing, directory handling, `main` and the scene composition.
