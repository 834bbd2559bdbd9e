# Dazzle framebuffer renderer, modelled in Dafny

This project models the retained-mode 2D renderer *Dazzle* with its
framebuffer backend, the bitmap-font loader of *betterm* and the
incremental UTF-8 decoder of *libutf8*, and proves properties of the model.

- **Framebuffer and pixels.** A framebuffer is the byte string at the
  descriptor's address: `height * pitch` bytes, with pixel `(x, y)` at
  `y * pitch + x * (bpp / 8)`. Every `memcpy` the backend makes is a `Write`
  (offset and bytes), and drawing applies a list of writes in order.
  `draw_span` becomes a `Span`. Each shape becomes the list of spans its
  loops produce. A blit becomes its list of row copies.
- **Undefined behaviour.** Where the framebuffer backend's C code has
  undefined behaviour in memory, the model's result is `Fault`. This covers a write through an
  unchecked NULL block, a copy that reads past a buffer or writes past the
  framebuffer, and a conversion loop that overruns its block. Signed `int`
  overflow is not a `Fault`: it wraps, as two's-complement hardware does
  (see "Left out"). The font loader and the glyph renderer instead take
  their inputs of undefined behaviour as preconditions, listed under
  "Left out".
- **Allocator.** The caller's allocator is a failure schedule: a set of
  call numbers that return NULL, and a counter of calls.
- **Context and scene.** The context holds the allocator, the backend's
  copy of the descriptor (absent when the backend state is NULL), the
  screen bytes, `retained_count` and the scene. The linked list of retained
  elements is the ordered sequence `scene`.
- **C integers.** `uint32_t` and `int` arithmetic wrap explicitly (`U32`,
  `I32`). C's truncating division is `TruncDiv`.
- **Fonts and UTF-8.** Font files and UTF-8 text are sequences of bounded
  integers.

Modules follow the program's structure:

| Module | What it models |
|---|---|
| `CInt`, `Alloc`, `Memory`, `Format` | The C integer conversions, the allocator, memory copies, and the descriptor with `__convert_color` |
| `Pixels` | Row patterns and `draw_span` |
| `Rectangles`, `Triangles`, `Circles`, `Blits` | The shape cases of `dazzle_fb_draw_element` |
| `Elements` | The element union and the context |
| `Backend` | `dazzle_fb_clear`, `dazzle_fb_draw_element`, `dazzle_init_fb` |
| `Dazzle` | The `dazzle.h` front end: clear, factories, add, redraw |
| `Fonts` | `load_font` and `render_glyph` |
| `Utf8` | `utf8_decode` |

`Arith` and `Seqs` hold arithmetic and sequence helper lemmas.

Every shape operation has a partner stated independently of its code:

| Operation | Partner |
|---|---|
| Spans, blits, clear | Per-pixel geometry: which pixels a shape covers and which bytes they get |
| Decoder | The UTF-8 encoder, through round trips |
| Font loader | The PSF1 and PSF2 encoders, through round trips |
| Glyph renderer | The MSB-first bitmap packer |
| Redraw | A replay of the scene, with "drawing twice changes nothing" as its invariant |

Three facts about the code shape the model:

- **Degenerate triangle.** `dazzle_fb_draw_element` allocates the row
  pattern (framebuf.inc.c line 126) before it tests for a degenerate
  triangle (line 176), so a rejected triangle still consumes one allocation.
- **Fixed-point scale.** The triangle walk scales by `0xffff`, not by 65536.
- **Quads.** A quad element exists and is never drawn.

## Model

| member | source | states |
|---|---|---|
| CInt.TruncDiv | libdazzle/include/backends/framebuf.inc.c:205-206 | C's `/` on `int` truncates toward zero: for a nonnegative dividend the quotient is the largest that does not overshoot, for a negative one the smallest that does not undershoot |
| CInt.I32AddAbsorbs | libdazzle/include/backends/framebuf.inc.c:216-217 | Adding to an `int` accumulator that already wrapped gives the same value as wrapping the exact sum once |
| CInt.LowBytes64 | libdazzle/include/backends/framebuf.inc.c:130-133 | Copying `bypp` bytes out of a `uint64_t` takes its `bypp` low-order bytes, least significant first |
| CInt.Image32At | libdazzle/include/backends/framebuf.inc.c:168 | Byte `4i+t` of a buffer of `uint32_t` pixels is byte `t` of pixel `i` |
| Alloc.Malloc | betterm/dazzle/include/dazzle.h:35-38 | An allocation succeeds exactly when its call number is not scheduled to fail, and every call advances the counter |
| Memory.Apply | libdazzle/include/backends/framebuf.inc.c:67 | A `memcpy` into the framebuffer replaces exactly the bytes it covers with the copied bytes and keeps every other byte |
| Memory.ApplyAllAt | libdazzle/include/backends/framebuf.inc.c:146-162 | After a sequence of copies, each byte holds the value of the last copy covering it, or its old value if none does |
| Memory.ApplyAllAppend | libdazzle/include/backends/framebuf.inc.c:154-162 | Performing two batches of copies in a row is the same as performing their concatenation |
| Memory.ApplyAllIdempotent | libdazzle/include/backends/framebuf.inc.c:137-276 | Repeating the same batch of copies on its own result changes nothing |
| Memory.ApplyAllUniformAt | libdazzle/include/backends/framebuf.inc.c:86-88 | If every copy reaching a byte writes the same value, the byte ends up with that value when reached and unchanged otherwise |
| Format.ConvertIgnoresHighBits | libdazzle/include/backends/framebuf.inc.c:48-58 | Colour bits above bit 31 never influence the converted pixel |
| Format.ConvertXrgb | libdazzle/include/backends/framebuf.inc.c:48-58 | With full masks and shifts 16/8/0/24, conversion moves red to byte 2, green to byte 1, blue to byte 0, alpha to byte 3, and sets nothing above bit 31 |
| Format.ConvertRgba | libdazzle/include/backends/framebuf.inc.c:48-58 | With full masks and shifts 24/16/8/0, conversion reverses the four channel bytes and sets nothing above bit 31 |
| Pixels.ColorBytes | libdazzle/include/backends/framebuf.inc.c:130-133 | One device pixel of the converted colour is exactly `bpp / 8` bytes long |
| Pixels.SpanWrite | libdazzle/include/backends/framebuf.inc.c:65-67 | A kept span copies the first `w * bypp` bytes of the pattern, that product taken in `uint32_t` and so modulo 2^32, to the offset of its origin pixel, inside the framebuffer |
| Pixels.InRowCopyLen | libdazzle/include/backends/framebuf.inc.c:67 | For a kept span that ends inside its row, the `uint32_t` copy length does not wrap: it is exactly `w * bypp`, at most one row of pixels |
| Pixels.DrawSpan | libdazzle/include/backends/framebuf.inc.c:60-68 | `draw_span` leaves memory unchanged when the origin is off the screen; otherwise it overwrites exactly the `(w * bypp) mod 2^32` bytes from `y * pitch + x * bypp` onward with the pattern's first bytes and keeps every other byte |
| Pixels.SpanWritesMembers | libdazzle/include/backends/framebuf.inc.c:60-68 | The copies of a list of spans are exactly the copies of its kept spans: every copy comes from a kept span, and every kept span contributes one |
| Pixels.SpanWriteOrigin | libdazzle/include/backends/framebuf.inc.c:60-68 | Each copy in the list comes from a span whose origin is on the screen |
| Pixels.SpanWriteIndex | libdazzle/include/backends/framebuf.inc.c:60-68 | Each span whose origin is on the screen contributes a copy to the list |
| Pixels.PaintIsApplyAll | libdazzle/include/backends/framebuf.inc.c:60-68 | Calling `draw_span` for each span in turn equals applying their copies in order |
| Pixels.PaintAppend | libdazzle/include/backends/framebuf.inc.c:154-162 | Drawing two lists of spans one after the other equals drawing their concatenation |
| Pixels.PaintIdempotent | libdazzle/include/backends/framebuf.inc.c:60-68 | Drawing the same spans with the same pattern a second time changes nothing |
| Pixels.InRowSpanOk | libdazzle/include/backends/framebuf.inc.c:60-68 | A span that stays inside its row neither reads past the pattern nor writes past the framebuffer |
| Pixels.AllInRowOk | libdazzle/include/backends/framebuf.inc.c:130-133 | A list of spans that stay inside their rows is safe to draw with a `width`-pixel pattern |
| Pixels.CoveredByAppend | libdazzle/include/backends/framebuf.inc.c:154-162 | A pixel is covered by two lists of spans exactly when one of them covers it |
| Pixels.SpanWriteHitsPixel | libdazzle/include/backends/framebuf.inc.c:67 | An in-row span's copy reaches a byte of pixel `(px, py)` exactly when the span covers that pixel, at the pixel's byte position in the pattern |
| Pixels.PixelInFrame | libdazzle/include/backends/framebuf.inc.c:67 | Every byte of an on-screen pixel lies inside the framebuffer |
| Pixels.SpanWritesUniform | libdazzle/include/backends/framebuf.inc.c:130-133 | Every copy of a solid-colour pattern that reaches byte `t` of a pixel writes byte `t` of the colour |
| Pixels.SpanWritesReach | libdazzle/include/backends/framebuf.inc.c:60-68 | A byte of a pixel is reached by the copies exactly when some span covers the pixel |
| Pixels.PaintPixel | libdazzle/include/backends/framebuf.inc.c:60-68 | Drawing in-row solid-colour spans gives each covered pixel the colour's bytes and leaves every other pixel as it was |
| Pixels.PaintByte | libdazzle/include/backends/framebuf.inc.c:60-68 | Drawing solid-colour spans gives a reached byte the colour byte and leaves an unreached byte as it was |
| Pixels.NegativeOriginDropped | libdazzle/include/backends/framebuf.inc.c:248-262 | A negative `int` column or row passed as `uint32_t` is never below the screen size, so the span is dropped |
| Rectangles.RectInRow | libdazzle/include/backends/framebuf.inc.c:139-164 | Every span of an on-screen rectangle, filled or outlined, stays inside its row |
| Rectangles.FilledCovers | libdazzle/include/backends/framebuf.inc.c:140-150 | As written, an on-screen filled rectangle covers exactly the pixels with `x <= px < x + width` and `y <= py < y + height - 1` |
| Rectangles.FilledMissesBottomRow | libdazzle/include/backends/framebuf.inc.c:141-149 | As written, the bottom row `y + height - 1` of a filled rectangle keeps its old bytes |
| Rectangles.FixedFilledCovers | libdazzle/include/backends/framebuf.inc.c:140-150 | The corrected filled rectangle, when on-screen, covers exactly its `width` by `height` pixels |
| Rectangles.FixedFilledPaint | libdazzle/include/backends/framebuf.inc.c:140-150 | The corrected filled rectangle, when on-screen, paints every byte inside it with the colour and leaves every other pixel unchanged |
| Rectangles.SidesCover | libdazzle/include/backends/framebuf.inc.c:158-162 | The side loop covers exactly columns `left` and `right` of the rows strictly between top and bottom |
| Rectangles.OutlineCovers | libdazzle/include/backends/framebuf.inc.c:151-163 | An on-screen outline covers exactly the top and bottom rows and the left and right columns of the rectangle |
| Rectangles.OutlinePaint | libdazzle/include/backends/framebuf.inc.c:151-163 | Drawing an on-screen outline gives border pixels the colour and leaves every other pixel unchanged |
| Triangles.Order | libdazzle/include/backends/framebuf.inc.c:179-183 | One compare-and-swap step puts the lower `y` first and keeps the same two vertices |
| Triangles.SortByY | libdazzle/include/backends/framebuf.inc.c:178-193 | The three swaps leave the vertices in ascending order of `y` |
| Triangles.SortByYPermutes | libdazzle/include/backends/framebuf.inc.c:178-193 | The sorted vertices are a rearrangement of the given ones |
| Triangles.WalkClosedForm | libdazzle/include/backends/framebuf.inc.c:203-218 | After `k` rows, the edge accumulators are their start values advanced by `k` steps with `int` wrap-around |
| Triangles.AdvanceStep | libdazzle/include/backends/framebuf.inc.c:216-217 | One row's step followed by `k - 1` more equals `k` steps from the start |
| Triangles.Advance | libdazzle/include/backends/framebuf.inc.c:216-217 | Adding a slope `k` times to a wrapping `int` accumulator equals wrapping `x + k * dx` once |
| Triangles.RowSpans | libdazzle/include/backends/framebuf.inc.c:203-215 | The loop draws one span per row, on consecutive rows from its first row, each clamped to the screen width |
| Triangles.WalkLength | libdazzle/include/backends/framebuf.inc.c:203-237 | The upper half visits rows `y1 .. y2 - 1` and the lower half rows `y2 .. y3 - 1` of the sorted vertices |
| Triangles.RowSpanClamped | libdazzle/include/backends/framebuf.inc.c:205-215 | After the swap and the clamps, a row's span either starts at or past `width`, and is dropped, or ends at or before column `width - 1`, its end being exclusive |
| Triangles.TriangleSkipsLastColumn | libdazzle/include/backends/framebuf.inc.c:210-213 | Because the end is clamped to `width - 1` and excluded, no triangle ever paints the last column of the screen |
| Triangles.TriangleRow | libdazzle/include/backends/framebuf.inc.c:171-238 | A triangle draws `y3 - y1` spans of the sorted vertices, span `i` on row `y1 + i`, each clamped |
| Triangles.TriangleInRow | libdazzle/include/backends/framebuf.inc.c:171-238 | Every span of a triangle stays inside its row |
| Triangles.TriangleRows | libdazzle/include/backends/framebuf.inc.c:203-237 | The triangle's spans lie on consecutive rows from the lowest vertex's row up to, and excluding, the highest one |
| Triangles.RejectsProperTriangle | libdazzle/include/backends/framebuf.inc.c:176 | The `y1 == y3` test runs before sorting, so the proper triangle (0,0),(5,5),(10,0) is rejected although its rows would draw 5 spans |
| Triangles.RejectedFixedExactly | libdazzle/include/backends/framebuf.inc.c:176-193 | The corrected test rejects exactly the triangles with all three `y` equal, which are exactly those with no rows to draw |
| Triangles.SlopeLeftEdge | libdazzle/include/backends/framebuf.inc.c:196 | As written, the unsigned product and division give slope 429431194 for the edge (10,0) to (0,10), where the fixed-point slope is `-0xffff` |
| Triangles.SlopeFixedApproximates | libdazzle/include/backends/framebuf.inc.c:196-198 | The corrected slope is the signed run times scale divided by the rise, truncated toward zero |
| Circles.StepKeep | libdazzle/include/backends/framebuf.inc.c:264-268 | A pass with a non-positive decision keeps `x`, updates the decision consistently, and keeps the point near the circle |
| Circles.StepDiagonal | libdazzle/include/backends/framebuf.inc.c:269-273 | A pass with a positive decision steps `x` down, updates the decision consistently, and keeps the point near the circle |
| Circles.StepsNear | libdazzle/include/backends/framebuf.inc.c:243-274 | The loop's points have consecutive `y`, `x` between `y` and the start, and each lies near the circle |
| Circles.StepsDescend | libdazzle/include/backends/framebuf.inc.c:264-273 | From one pass to the next, `x` stays or drops by exactly one |
| Circles.OctantNear | libdazzle/include/backends/framebuf.inc.c:240-274 | Starting from `(r, 0)` with decision `1 - r`, the loop plots at most `r + 1` points, the `i`-th with `y = i` and `i <= x <= r`, all near the circle, with `x` dropping by zero or one per pass |
| Circles.OctantSmall | libdazzle/include/backends/framebuf.inc.c:241-243 | Radius 0 plots only the centre, and a negative radius plots nothing |
| Circles.FilledSpans | libdazzle/include/backends/framebuf.inc.c:246-252 | A filled pass draws four spans |
| Circles.OutlineSpans | libdazzle/include/backends/framebuf.inc.c:253-262 | An outline pass plots eight single pixels |
| Circles.OutlineOffsetsAre | libdazzle/include/backends/framebuf.inc.c:255-262 | The eight pixels of an outline pass sit at exactly the offsets `(±x, ±y)` and `(±y, ±x)` from the centre |
| Circles.OutlineSymmetric | libdazzle/include/backends/framebuf.inc.c:255-262 | The set of offsets of an outline pass is mapped onto itself by exchanging the coordinates and by negating either one |
| Circles.Passes | libdazzle/include/backends/framebuf.inc.c:243-274 | Each pass contributes the same number of spans, one group per plotted point |
| Circles.NegativeRadiusDrawsNothing | libdazzle/include/backends/framebuf.inc.c:240-243 | A radius of 2^31 or more becomes a negative `int`, and the circle draws nothing |
| Circles.CircleSpanAt | libdazzle/include/backends/framebuf.inc.c:239-275 | Span `j` of a circle is span `j mod n` of the pass for the `(j div n)`-th point of the octant |
| Circles.PassGeometry | libdazzle/include/backends/framebuf.inc.c:245-262 | Each span of a pass stays in its row; its pixels are no farther from the centre than the pass's point, and exactly as far for an outline |
| Circles.FilledGeometry | libdazzle/include/backends/framebuf.inc.c:246-252 | The four spans of a filled pass stay in their rows and lie within the pass's distance of the centre |
| Circles.OutlineGeometry | libdazzle/include/backends/framebuf.inc.c:253-262 | The eight pixels of an outline pass stay in their rows and are exactly the pass's distance from the centre |
| Circles.PointBound | libdazzle/include/backends/framebuf.inc.c:241-273 | For a point the loop plots, any squared distance no larger than the point's is at most `r^2 + r`, and the point's own squared distance exceeds `r^2 - r` |
| Circles.CircleGeometry | libdazzle/include/backends/framebuf.inc.c:239-275 | An on-screen circle draws only in-row spans inside its disc, and an outline with a positive radius only touches the ring around the true circle |
| Blits.Translate | libdazzle/include/backends/framebuf.inc.c:113-123 | Untranslated blit: converts the first `width * height` source pixels into a new block, marks the element translated and uses one allocation. Translated blit: nothing changes. Undefined exactly when the block is NULL or too small, or the source too short |
| Blits.TranslateOnce | libdazzle/include/backends/framebuf.inc.c:114-123 | Converting an element already converted changes nothing and allocates nothing |
| Blits.IdentityLayoutKeepsPixels | libdazzle/include/backends/framebuf.inc.c:117-120 | With the identity layout, conversion keeps every pixel value |
| Blits.ConvertIdentity | libdazzle/include/backends/framebuf.inc.c:48-58 | With full masks and shifts 0/8/16/24, converting a pixel gives it back unchanged |
| Blits.RowWrite | libdazzle/include/backends/framebuf.inc.c:166-169 | A row copy that is defined stays inside the framebuffer |
| Blits.BlitWrites | libdazzle/include/backends/framebuf.inc.c:165-170 | When every row is defined, all of the blit's row copies stay inside the framebuffer |
| Blits.OnScreenOffsets | libdazzle/include/backends/framebuf.inc.c:168 | For an on-screen blit, no `uint32_t` offset wraps: row `i` reads at `4 * i * width` and writes at `(y + i) * pitch + 4 * x`, and is defined |
| Blits.OnScreenArea | libdazzle/include/backends/framebuf.inc.c:116 | For an on-screen blit, `width * height` does not wrap |
| Blits.TranslateOnScreen | libdazzle/include/backends/framebuf.inc.c:113-123 | Converting an on-screen blit keeps it on screen, with exactly `width * height` pixels, each converted |
| Blits.RowReach | libdazzle/include/backends/framebuf.inc.c:166-169 | Row `i`'s copy reaches a byte of pixel `(px, py)` exactly when the pixel is in that screen row and the blit's columns, and writes the matching byte of the source pixel there |
| Blits.RowWriteByte | libdazzle/include/backends/framebuf.inc.c:168 | Byte `t` of pixel `c` in row `i`'s copy is byte `t` of source pixel `i * width + c` |
| Blits.BlitReach | libdazzle/include/backends/framebuf.inc.c:165-170 | The row copies reach a pixel exactly when it is inside the blit, and all of them write that pixel's source bytes there |
| Blits.BlitPixel | libdazzle/include/backends/framebuf.inc.c:165-170 | Copying a blit gives every pixel inside it the bytes of its source pixel and leaves every pixel outside unchanged |
| Blits.TranslatedPixel | libdazzle/include/backends/framebuf.inc.c:113-170 | A first draw of an on-screen blit gives every pixel inside it the bytes of its converted source pixel and leaves every pixel outside unchanged |
| Backend.ElementWrites | libdazzle/include/backends/framebuf.inc.c:137-276 | A quad makes no copy. A shape's copies are defined exactly when every kept span's wrapped copy length fits the pattern and the framebuffer. Defined copies stay inside the framebuffer |
| Backend.WideOutlineCopiesNothing | libdazzle/include/backends/framebuf.inc.c:151-163 | On a one-pixel 32-bit screen, an outline `2^30` wide and one high is defined: both edge copies have length `2^32` wrapped to 0, there are no side rows, and the screen is unchanged |
| Memory.ApplyEmpty | libdazzle/include/backends/framebuf.inc.c:67 | Copies of zero bytes leave memory unchanged |
| Backend.Prepare | libdazzle/include/backends/framebuf.inc.c:102-124 | Only a blit is changed by the first switch, and a blit comes out translated; the failure schedule is kept |
| Backend.DrawElement | libdazzle/include/backends/framebuf.inc.c:93-280 | Drawing keeps the scene, the count, the backend state and the failure schedule, and leaves a valid context |
| Backend.DrawWithoutRenderer | libdazzle/include/backends/framebuf.inc.c:95-96 | Without backend state, drawing returns false and changes nothing |
| Backend.DrawLinebufFailure | libdazzle/include/backends/framebuf.inc.c:126-128 | A failed pattern allocation returns false with the screen unchanged, after a blit was already converted |
| Backend.DrawRejectedTriangle | libdazzle/include/backends/framebuf.inc.c:176 | A triangle with `y1 == y3` returns false and writes nothing |
| Backend.TriangleDefined | libdazzle/include/backends/framebuf.inc.c:171-238 | Drawing a triangle is always defined, and returns true exactly when the backend exists, the pattern is allocated and the triangle is not rejected |
| Backend.DrawShapePaints | libdazzle/include/backends/framebuf.inc.c:137-276 | A successful shape draw leaves the screen equal to drawing the shape's spans with its pattern |
| Backend.DrawOk | libdazzle/include/backends/framebuf.inc.c:93-280 | A draw returning true had backend state and a defined conversion, and applied the converted element's copies to the screen |
| Backend.DrawAgain | libdazzle/include/backends/framebuf.inc.c:126-276 | Redrawing a prepared element is defined and either leaves the screen as it was or applies the element's copies |
| Backend.DrawPreparedOk | libdazzle/include/backends/framebuf.inc.c:126-279 | A prepared, accepted element with a successful allocation is drawn: result true, one allocation, its copies applied |
| Backend.DrawPreparedRejected | libdazzle/include/backends/framebuf.inc.c:126-176 | A prepared rejected triangle consumes one allocation, returns false and leaves the screen alone |
| Backend.DrawTwice | libdazzle/include/backends/framebuf.inc.c:93-280 | Drawing the element a successful draw returned a second time is defined, keeps the element, and leaves the screen as the first draw left it |
| Backend.DrawBlitPixel | libdazzle/include/backends/framebuf.inc.c:113-170 | A successful draw of an on-screen untranslated blit sets every pixel inside it to its converted source pixel and keeps every pixel outside |
| Backend.ClearSpansOk | libdazzle/include/backends/framebuf.inc.c:80-88 | The clear's spans are safe to draw with its `2 * width`-pixel pattern |
| Backend.ClearSpanFits | libdazzle/include/backends/framebuf.inc.c:86-87 | Each clear span ends inside the framebuffer |
| Backend.FbClear | libdazzle/include/backends/framebuf.inc.c:70-91 | Without backend state: false and no change. With it: true whenever defined, scene kept. Undefined exactly when there are pixels to write and the unchecked pattern block is NULL or, `pitch * 2` having wrapped, too small |
| Backend.ClearSpanWrite | libdazzle/include/backends/framebuf.inc.c:86-87 | Clear span `i` copies `2 * width * bypp` colour bytes to offset `2i * pitch` |
| Backend.ClearSpanHit | libdazzle/include/backends/framebuf.inc.c:86-87 | Clear span `i` reaches byte `r` of row pair `q` exactly when `q = i` and `r` is within the span, and writes the matching colour byte |
| Backend.ClearWriteIndex | libdazzle/include/backends/framebuf.inc.c:86-88 | Every copy the clear makes comes from one of its spans |
| Backend.ClearUniform | libdazzle/include/backends/framebuf.inc.c:81-88 | Every clear copy reaching a byte writes the colour byte for that byte's position in its row pair |
| Backend.ClearReached | libdazzle/include/backends/framebuf.inc.c:86-88 | The clear's copies reach byte `k` exactly when `k` is in a complete row pair and within the first `2 * width * bypp` bytes of that pair |
| Backend.ClearPaintByte | libdazzle/include/backends/framebuf.inc.c:81-88 | Each framebuffer byte after the clear is the colour byte where reached and the old byte elsewhere |
| Backend.ClearPaints | libdazzle/include/backends/framebuf.inc.c:70-91 | A defined clear leaves the screen equal to drawing its spans with the converted colour's pattern |
| Backend.ClearByte | libdazzle/include/backends/framebuf.inc.c:70-91 | After a defined clear each byte holds the colour byte if the clear reaches it and its old value otherwise |
| Backend.LastRowUnreached | libdazzle/include/backends/framebuf.inc.c:86 | When the height is odd, no byte of the last row is reached by the clear |
| Backend.PaddedEnd | libdazzle/include/backends/framebuf.inc.c:86-87 | The last byte of the last pixel of row 1 lies inside the framebuffer |
| Backend.PaddedEndUnreached | libdazzle/include/backends/framebuf.inc.c:81-87 | With a padded pitch, the last byte of the last pixel of row 1 is not reached by the clear |
| Backend.ClearMissesLastRow | libdazzle/include/backends/framebuf.inc.c:86-88 | As written, with an odd height the clear leaves every byte of the last row unchanged |
| Backend.ClearMissesPaddedRowEnd | libdazzle/include/backends/framebuf.inc.c:80-88 | As written, with a padded pitch the clear leaves the end of row 1 unchanged |
| Backend.FbClearFixed | libdazzle/include/backends/framebuf.inc.c:70-91 | The corrected clear keeps the scene and returns false without backend state |
| Backend.ClearFixedPaints | libdazzle/include/backends/framebuf.inc.c:70-91 | The corrected clear, given its pattern block, returns true and sets every byte of every pixel to the colour |
| Backend.InitFb | libdazzle/include/backends/framebuf.inc.c:282-307 | Initialisation fails exactly when either allocation fails. On success the context holds a copy of the descriptor, an empty scene and a zero count |
| Dazzle.Clear | betterm/dazzle/include/dazzle.h:126-128 | `dazzle_clear` returns true exactly when backend state exists, never touches the scene, and is undefined exactly when the backend's clear is |
| Dazzle.Create | betterm/dazzle/include/dazzle.h:130-196 | A factory uses one allocation and returns the element exactly when that allocation succeeds |
| Dazzle.CreateTriangle | betterm/dazzle/include/dazzle.h:130-147 | The triangle factory records every argument and returns NULL exactly when the allocation fails |
| Dazzle.CreateRectangle | betterm/dazzle/include/dazzle.h:149-164 | The rectangle factory records every argument and returns NULL exactly when the allocation fails |
| Dazzle.CreateCircle | betterm/dazzle/include/dazzle.h:166-180 | The circle factory records every argument and returns NULL exactly when the allocation fails |
| Dazzle.CreateBlitable | betterm/dazzle/include/dazzle.h:182-196 | The blit factory records position, size and buffer. `translated` is left as whatever the allocated block held, a parameter here |
| Dazzle.StaleBlitableNotConverted | betterm/dazzle/include/dazzle.h:182-196 | A blit whose uninitialised flag reads true is never converted: drawing keeps its buffer in the packed layout |
| Dazzle.CreateBlitableFixed | betterm/dazzle/include/dazzle.h:182-196 | The corrected factory records its arguments and marks the buffer untranslated |
| Dazzle.FixedBlitableConverted | betterm/dazzle/include/dazzle.h:182-196 | A blit from the corrected factory is converted on its first draw, pixel by pixel |
| Dazzle.Add | betterm/dazzle/include/dazzle.h:207-216 | Adding appends the element at the end of the scene, increments the count modulo 2^32 and keeps everything else |
| Dazzle.AddAllFromInit | betterm/dazzle/include/dazzle.h:207-216 | Adding elements one by one to a fresh context yields exactly that scene, in order, with the count equal to their number modulo 2^32 |
| Dazzle.Replay | betterm/dazzle/include/dazzle.h:198-206 | Drawing the first `n` elements in order gives one result per element and keeps the later elements, the count and the backend |
| Dazzle.ReplayStep | betterm/dazzle/include/dazzle.h:201-204 | A pass over `n` elements is the pass over `n - 1` followed by one draw of element `n - 1`, which is stored back in place |
| Dazzle.AllTrueSnoc | betterm/dazzle/include/dazzle.h:202 | `success &= r` is true after the step exactly when it was true before and `r` is true |
| Dazzle.FaultPersists | betterm/dazzle/include/dazzle.h:201-204 | Undefined behaviour in one draw makes the whole redraw undefined |
| Dazzle.DrawNext | betterm/dazzle/include/dazzle.h:202 | One loop step draws the next element, extending the pass by one element or making it undefined |
| Dazzle.FoldNext | betterm/dazzle/include/dazzle.h:202-203 | After one loop step, the running result is the AND of the results so far and the context is the pass's |
| Dazzle.Redraw | betterm/dazzle/include/dazzle.h:198-206 | `dazzle_redraw` draws every element once in order and never stops early. It returns the AND of all results and leaves the pass's final context. It is undefined exactly when some draw is. An empty scene returns true |
| Dazzle.ReplayWithoutRenderer | libdazzle/include/backends/framebuf.inc.c:95-96 | Without backend state, every draw in a pass returns false and nothing changes |
| Dazzle.PassWritesSnoc | betterm/dazzle/include/dazzle.h:201-204 | The copies of a pass extended by one draw are the previous copies followed by that draw's |
| Dazzle.ScreenSnoc | betterm/dazzle/include/dazzle.h:201-204 | Applying a pass's copies and then one draw's copies equals applying the extended pass's copies |
| Dazzle.DrawEffect | libdazzle/include/backends/framebuf.inc.c:93-280 | A defined draw with backend state changes the screen by applying the element's copies when it returns true, and not at all when it returns false |
| Dazzle.ReplayScreen | betterm/dazzle/include/dazzle.h:198-206 | After a pass, the screen is the starting screen with the copies of every successful draw applied in scene order |
| Dazzle.AllSettledSnoc | betterm/dazzle/include/dazzle.h:201-204 | Settled elements stay settled when one more settled element is appended |
| Dazzle.DrawSettles | libdazzle/include/backends/framebuf.inc.c:113-176 | With an allocator that never fails, a draw leaves its element in a state where drawing it again returns the same result |
| Dazzle.DrawSettledAgain | libdazzle/include/backends/framebuf.inc.c:113-279 | A settled element drawn again returns its recorded result, converts nothing, and applies the same copies |
| Dazzle.ReplaySettles | betterm/dazzle/include/dazzle.h:198-206 | After a pass with an allocator that never fails, every element is settled with the result its draw returned |
| Dazzle.SettledCtx | betterm/dazzle/include/dazzle.h:198-206 | The context after a pass over settled elements is valid and keeps the scene and the backend |
| Dazzle.ReplaySettled | betterm/dazzle/include/dazzle.h:198-206 | A pass over settled elements returns the recorded results, makes one allocation per element, and applies their copies in order |
| Dazzle.ReplaySettledNext | betterm/dazzle/include/dazzle.h:201-204 | Over settled elements, one more loop step extends the pass by the recorded result and the element's copies |
| Dazzle.SettledStep | betterm/dazzle/include/dazzle.h:201-204 | The context after `n - 1` settled draws, advanced by draw `n - 1`, is the context after `n` settled draws |
| Dazzle.RedrawTwice | betterm/dazzle/include/dazzle.h:198-206 | With an allocator that never fails, redrawing a second time returns the same per-element results and leaves the screen and the scene exactly as the first redraw did |
| Fonts.LeBytes32 | betterm/__fontldr.inc.c:108 | Writing a `uint32_t` as four little-endian bytes and reading it back gives the value |
| Fonts.ReadHeader | betterm/__fontldr.inc.c:102-116 | PSF1 is recognised exactly by its 16-bit magic; PSF2 exactly by its 32-bit magic when PSF1's does not match. PSF1 gives 256 or 512 glyphs by mode bit 0, width 8 and height = bytes per glyph = `char_size`. PSF2 gives the header's count, bytes per glyph, height and width |
| Fonts.LoadFont | betterm/__fontldr.inc.c:97-127 | A font is invalid exactly when no magic matches. A valid font copies `glyph_count * bytes_per_glyph` bytes from just after the header and makes one allocation; an invalid one makes none |
| Fonts.Psf1GlyphCount | betterm/__fontldr.inc.c:104 | A PSF1 font has 256 or 512 glyphs |
| Fonts.LoadPsf1RoundTrip | betterm/__fontldr.inc.c:102-124 | Loading an encoded PSF1 file gives back its mode's glyph count, width 8, its character size and its glyph bytes |
| Fonts.LoadPsf2RoundTrip | betterm/__fontldr.inc.c:108-124 | Loading an encoded PSF2 file gives back its header fields and its glyph bytes |
| Fonts.WidthBytes | betterm/__fontldr.inc.c:157 | A bitmap row takes `ceil(width / 8)` bytes while that fits in a `uint8_t` |
| Fonts.GlyphRow | betterm/__fontldr.inc.c:159-165 | A rendered row has `width` pixels |
| Fonts.GlyphRows | betterm/__fontldr.inc.c:158-166 | A rendered glyph has `height` rows of `width` pixels |
| Fonts.RowsRendered | betterm/__fontldr.inc.c:158-166 | The rows laid end to end form the glyph buffer: `width * height` pixels, pixel `(i, j)` at `i * width + j` |
| Fonts.RowPixel | betterm/__fontldr.inc.c:161-163 | Pixel `(i, j)` of the glyph buffer is the colour where the bitmap bit is set and 0 where it is clear |
| Fonts.RenderGlyph | betterm/__fontldr.inc.c:148-170 | An invalid font gives an empty glyph and no allocation. A valid one gives the font's size, one allocation, a buffer exactly when the allocation succeeds, and that buffer holds each pixel of the bitmap |
| Fonts.RenderRow | betterm/__fontldr.inc.c:159-165 | The inner loop produces exactly row `i` of the glyph |
| Fonts.PackBits | betterm/__fontldr.inc.c:160 | A string of `n` bits, most significant first, packs to a value below 2^n |
| Fonts.PackBitsSplit | betterm/__fontldr.inc.c:160 | Packing a concatenation shifts the first part left by the second's length |
| Fonts.PackBitsBit | betterm/__fontldr.inc.c:160 | Shifting a packed string right by `n - 1 - k` and masking with 1 gives bit `k` |
| Fonts.PackBitsLast | betterm/__fontldr.inc.c:160 | The last bit of a packed string is its lowest |
| Fonts.PackBitsShift | betterm/__fontldr.inc.c:160 | Below the last bit, bit `k` of a string is bit `k` of the string without its last bit |
| Fonts.PackGlyphAt | betterm/__fontldr.inc.c:156-160 | A packed glyph is `height * width_bytes` long, with byte `t` of row `i` at `i * width_bytes + t` |
| Fonts.GlyphByteOf | betterm/__fontldr.inc.c:156-160 | The byte `render_glyph` reads for pixel `(i, j)` is byte `j / 8` of packed row `i` |
| Fonts.RowByteInGlyph | betterm/__fontldr.inc.c:156-160 | The byte index for pixel `(i, j)` lies inside the glyph, so its `uint32_t` offset does not wrap |
| Fonts.RenderDrawsBitmap | betterm/__fontldr.inc.c:156-164 | Rendering a glyph stored as a packed bitmap gives the colour exactly where the bitmap bit is set, and 0 elsewhere |
| Fonts.PackByteBit | betterm/__fontldr.inc.c:160 | Bit `j % 8` from the left of packed byte `j / 8` is pixel `j` of the row |
| Utf8.Status.Code | libutf8/utf8.h:7-9 | The status codes are 0 for extracted, 1 for more bytes required and 2 for invalid input |
| Utf8.Decode | libutf8/utf8.h:31-68 | A code point is reported exactly when the status is "extracted". Invalid input and the fall-through without a return leave the state as it was |
| Utf8.Lead | libutf8/utf8.h:34-48 | A lead byte starts a sequence of two, three or four bytes, keeping its low six, five or four bits, with one fewer byte remaining than the length |
| Utf8.Append6 | libutf8/utf8.h:59 | `(c & ~0xC0) \| (cp << 6)` on `uint32_t` keeps the six payload bits of `c` as the low bits and `cp` modulo 2^26 above them |
| Utf8.Continue | libutf8/utf8.h:54-67 | In a sequence: a byte below 0x80 is invalid and changes nothing. Otherwise six payload bits are appended and one fewer byte remains, and the code point is reported when none remain |
| Utf8.DecodeAscii | libutf8/utf8.h:50-53 | Outside a sequence a byte below 0x80 is its own code point |
| Utf8.DecodeLead | libutf8/utf8.h:34-38 | Outside a sequence every byte from 0xC0 up starts a two-byte sequence, because that test comes first |
| Utf8.DecodeStrayContinuation | libutf8/utf8.h:33-49 | Outside a sequence a byte in 0x80..0xBF matches no branch, and the function ends without returning a status |
| Utf8.Run | libutf8/test.c:12-25 | Feeding no bytes reports nothing and keeps the state |
| Utf8.RunInvalid | libutf8/test.c:19-20 | A rejected byte adds no code point, and the loop goes on from the state the call left |
| Utf8.RunSkipsInvalid | libutf8/test.c:12-25 | Fed C3 41 A9, the callers' loop skips the rejected 41 and then extracts U+00E9 |
| Utf8.Got | libutf8/test.c:15-16 | A call contributes its output exactly when it reports one |
| Utf8.RunMore | libutf8/test.c:12-25 | A byte needing more input contributes nothing and the caller continues from the new state |
| Utf8.RunExtract | libutf8/test.c:12-25 | An extracted code point is reported before those of the remaining bytes |
| Utf8.RunConcat | libutf8/test.c:12-25 | Decoding a concatenation equals decoding the first part, then the second from the resulting state, with the code points joined |
| Utf8.RunRemainingAtMostOne | libutf8/utf8.h:34-66 | Starting with at most one byte remaining, the decoder never has more than one byte remaining |
| Utf8.Encode | libutf8/utf8.h:31-68 | The UTF-8 encoder: one to four bytes, one exactly below 0x80, two exactly for 0x80..0x7FF, every byte after the first a continuation byte |
| Utf8.EncodeAll | libutf8/utf8.h:31-68 | Encoding a string takes between one and four bytes per code point |
| Utf8.Encode2Parts | libutf8/utf8.h:34-37 | A two-byte encoding is a lead carrying the high five bits and a continuation carrying the low six |
| Utf8.DecodeTwoByteRoundTrip | libutf8/utf8.h:31-68 | Decoding the two-byte encoding of a code point in 0x80..0x7FF gives back that code point |
| Utf8.DecodeShortRoundTrip | libutf8/utf8.h:31-68 | Decoding the encoding of any code point below 0x800 gives back that code point, with no sequence left open |
| Utf8.DecodeShortStringRoundTrip | libutf8/utf8.h:31-68 | Decoding the encoding of a string of code points below 0x800 gives back the string |
| Utf8.ThreeByteMisread | libutf8/utf8.h:34-43 | As written, the euro sign E2 82 AC decodes as U+0882, and then its third byte gets no status |
| Utf8.DecodeFixed | libutf8/utf8.h:31-68 | The corrected decoder always returns a status. Invalid input keeps the state. A code point is reported exactly on "extracted". No more than three bytes ever remain |
| Utf8.Encode3Parts | libutf8/utf8.h:39-42 | A three-byte encoding is a lead carrying the high four bits and two continuations carrying six bits each |
| Utf8.AppendNext6 | libutf8/utf8.h:59 | Appending the next six-bit group of a code point to its higher bits gives the code point's next prefix |
| Utf8.Encode4Parts | libutf8/utf8.h:44-47 | A four-byte encoding is a lead carrying the high three bits and three continuations carrying six bits each |
| Utf8.FixedRoundTrip1 | libutf8/utf8.h:50-53 | The corrected decoder gives back a one-byte code point |
| Utf8.FixedRoundTrip2 | libutf8/utf8.h:34-38 | The corrected decoder gives back a two-byte code point |
| Utf8.FixedRoundTrip3 | libutf8/utf8.h:39-43 | The corrected decoder gives back a three-byte code point |
| Utf8.Fixed3Steps | libutf8/utf8.h:39-66 | Each of the three bytes of a three-byte encoding moves the corrected decoder through the expected state, ending with the code point |
| Utf8.FixedRoundTrip4 | libutf8/utf8.h:44-48 | The corrected decoder gives back a four-byte code point |
| Utf8.FixedRoundTrip | libutf8/utf8.h:31-68 | The corrected decoder gives back any encodable code point, with no sequence left open |
| Utf8.FixedStringRoundTrip | libutf8/utf8.h:31-68 | The corrected decoder gives back any string of encodable code points |

## Left out

- **Releasing memory.** `free` and leaks are not modelled. Nothing in the
  model reads freed memory, and no operation frees a retained element. This
  includes the pattern block leaked by the early returns at
  framebuf.inc.c:128 and :176, and the pre-conversion blit buffer.
- **Element identity.** The linked list's `next` pointers are not modelled.
  Adding the same element twice, or forming a cycle, cannot be expressed.
- **`dazzle_add`.** It has no `return` statement although declared `bool`.
  The model returns only the new context.
- **NULL elements.** A NULL element passed to `dazzle_add`, or a NULL
  context, is not modelled. The factories' `return false` is their NULL
  return.
- **Quads.** A quad element can be stored and is drawn as nothing, which is
  what the code does. No factory exists for it in the source either.
- **`get_glyphs`.** It is an empty stub with no behaviour, so it is not
  modelled.
- **Renderer pointers.** The backend's function pointers are fixed to the
  framebuffer backend, the only one that exists. Unused versioning macros
  are not modelled.
- **Framebuffer address.** The descriptor's address is abstracted to the
  separate screen byte sequence.
- **Host byte order.** Little-endian is assumed in `ColorBytes` and
  `Bytes32`, the order the targets use.
- **Time, I/O, threads.** None are modelled, because none are used by the
  core.
- Triangles.WalkClosedForm: the `int` accumulators of the triangle loop are
  taken to wrap in two's complement. Signed overflow is undefined in C, so
  this is one admissible reading and not a promise of the source.
- Triangles.TriangleRow: the triangle's `filled` flag is not read by the
  code, so every triangle is filled; no contract mentions it.
- Rectangles.RectSpans: the `int` counters of both rectangle loops
  (framebuf.inc.c:146 and :158) are compared with the `uint32_t` bottom, so
  they run as unsigned values. A rectangle reaching past row 2^31 - 1 takes
  a counter past `INT_MAX`, which is undefined in C. The model takes the
  two's-complement reading, under which the loops visit the same rows as a
  `uint32_t` counter, rather than `Fault`.
- Rectangles.FilledCovers: stated only for on-screen rectangles (at least
  one pixel, wholly inside the frame). A rectangle that runs past the right
  edge spills into the following row, because `draw_span` does not clamp,
  and rows whose origin is off the screen are dropped. Those cases are
  described by `Pixels.DrawSpan` and `Pixels.NegativeOriginDropped`, not by
  a coverage set.
- Rectangles.FixedFilledCovers: the same on-screen restriction as
  `Rectangles.FilledCovers`, for the same reason.
- Rectangles.FixedFilledPaint: the same on-screen restriction as
  `Rectangles.FilledCovers`, for the same reason.
- Rectangles.OutlinePaint: stated only for on-screen outlines. An outline
  past the right edge spills its top and bottom edges into the next row,
  and off-screen rows are dropped, as for `Rectangles.FilledCovers`.
- Circles.Chord: the circle's `int` arithmetic (`cx - x`, `cy + y`,
  `2 * x + 1` and the decision variable, framebuf.inc.c:240-273) is
  computed on unbounded integers and wrapped to `uint32_t` at the
  `draw_span` call. For a centre or radius near 2^31 the C expressions
  overflow, which is undefined. The model gives the two's-complement result
  rather than `Fault`, and its decision variable never wraps.
- Backend.ElementWrites: the row pattern is modelled as its `width * bypp`
  written bytes. The C code allocates `pitch` bytes for it
  (framebuf.inc.c:126) and leaves the rest indeterminate. A span whose copy
  length exceeds `width * bypp` but not `pitch` copies indeterminate bytes
  in C, which is defined; the model has no value for those bytes and gives
  `Fault`. An example is a filled circle at (3,3) of radius 3 on a screen 4
  pixels wide, with pitch 32 and 32 bits per pixel. A blit at 8 bytes per
  pixel is treated the same way. Its converted block has
  `width * height * 8` bytes, only the first half written, and a row copy
  that reads the second half is `Fault`.
- Format.Descriptor.Valid: the descriptor is assumed to have these
  properties, none of which the C code checks:
  - `bypp = bpp / 8` between 1 and 8, so `bpp` from 8 to 71. Below 8,
    `bypp` is 0 and every copy is empty. Above 71, `bypp` exceeds 8 and
    the colour copy reads past its `uint64_t`.
  - `width * bypp <= pitch`.
  - `height * pitch < 2^32`, so no `uint32_t` byte offset wraps.
  - `2 * width` and `height` below 2^31, so the `int` counters of the clear
    and pattern loops do not overflow.

  Descriptors outside these bounds are not modelled.
- Circles.CircleGeometry: stated only for circles whose bounding box lies
  on the screen. Off-screen circles rely on `draw_span` dropping spans,
  proved separately by `Pixels.NegativeOriginDropped`.
- Blits.BlitPixel: the per-pixel blit lemmas require 32-bit pixels
  (`bpp / 8 == 4`), because the converted buffer holds `uint32_t` values.
  With another depth the copy reads the buffer at a different stride, and
  only definedness is modelled.
- Blits.TranslatedPixel: same 32-bit restriction as `Blits.BlitPixel`.
- Backend.DrawBlitPixel: same 32-bit restriction as `Blits.BlitPixel`.
- Format.ConvertXrgb: the channel placement is stated only for full masks
  with shifts 16/8/0/24, the layout of tests/drmtest.c. fb0test/test.c
  takes its shifts from the device, and other layouts are covered only by
  `Format.ConvertIgnoresHighBits`.
- Format.ConvertRgba: stated only for full masks with shifts 24/16/8/0,
  the fixed layout of test/test.c and tests/sdltest.c, for the same
  reason.
- Fonts.RenderDrawsBitmap: requires `width <= 2040`, where `width_bytes`
  (a `uint8_t`) does not wrap.
- Fonts.RenderGlyph: three inputs of undefined behaviour in C are
  preconditions rather than a `Fault` result:
  - a glyph index whose bitmap lies outside the loaded glyph data
    (`Renderable`), where the C code reads out of bounds;
  - a failing buffer allocation when `width * height > 0`, where the C code
    writes through the unchecked `malloc` result (__fontldr.inc.c:155-163);
  - `width * height >= 2^32` (`Renderable`), where the C code sizes the
    buffer from the wrapping `uint32_t` product and writes past it.
- Dazzle.RedrawTwice: requires an allocator that never fails. With failing
  allocations, a second redraw can return false where the first returned
  true.
- Fonts.LoadFont: the `size` argument is ignored by the code. The model
  requires (`Loadable`) what the C code needs to stay defined, instead of
  giving a `Fault` result:
  - the header and the glyph bytes are present, since the C code reads
    past a short buffer;
  - the glyph allocation succeeds when there are glyph bytes, since the C
    code copies into the unchecked `malloc` result
    (__fontldr.inc.c:122-123).
- Utf8.Run: models the callers' loop over a byte string. A rejected byte
  is skipped, as the callers do after printing their message. A call that
  returns no status ends the run with no result, since the caller would
  read an indeterminate value; the callers' printed messages are not
  modelled.

## Findings

| source | as written | input that shows it | evidently intended | confidence | as-written member | corrected member |
|---|---|---|---|---|---|---|
| libutf8/utf8.h:34-48 | The `c >= 0xC0` test comes before `c >= 0xE0` and `c >= 0xF0`, so every lead byte starts a two-byte sequence | E2 82 AC (U+20AC) decodes as U+0882, and its third byte matches no branch and returns nothing | Test four-byte, then three-byte, then two-byte leads | high, not executed | Utf8.ThreeByteMisread | Utf8.FixedStringRoundTrip |
| libdazzle/include/backends/framebuf.inc.c:146 | A filled rectangle loops `i < bottom`, with `bottom = y + height - 1` | Filled rectangle at (0,0), 2 by 2: row 1 is never drawn | `i <= bottom`, covering `height` rows | high, not executed | Rectangles.FilledMissesBottomRow | Rectangles.FixedFilledPaint |
| libdazzle/include/backends/framebuf.inc.c:86 | The clear paints rows in pairs, `height / 2` times | Height 3: row 2 keeps its old bytes | Paint every row | high, not executed | Backend.ClearMissesLastRow | Backend.ClearFixedPaints |
| libdazzle/include/backends/framebuf.inc.c:81-87 | The clear's span covers `2 * width * bypp` contiguous bytes from row `2i` | Width 1, bypp 4, pitch 8, height 2: bytes 8-11 (pixel 0 of row 1) are not written | Each row's pixels written at its own pitch offset | high, not executed | Backend.ClearMissesPaddedRowEnd | Backend.ClearFixedPaints |
| libdazzle/include/backends/framebuf.inc.c:176 | The degenerate test `y1 == y3` runs before sorting | (0,0),(5,5),(10,0) is rejected although it spans 5 rows | Test after sorting, or test all three `y` equal | high, not executed | Triangles.RejectsProperTriangle | Triangles.RejectedFixedExactly |
| libdazzle/include/backends/framebuf.inc.c:196-198 | `(x2 - x1) * 0xffff / (y2 - y1)` is computed in `uint32_t`, so a leftward edge gets a huge positive slope | Edge (10,0) to (0,10): slope 429431194 instead of -65535 | Signed arithmetic | high, not executed | Triangles.SlopeLeftEdge | Triangles.SlopeFixedApproximates |
| betterm/dazzle/include/dazzle.h:182-196 | `dazzle_create_blitable` never sets `translated`, so it holds whatever the fresh block held | A block whose flag byte reads nonzero: the buffer is copied unconverted | Initialise `translated = false` | medium, not executed | Dazzle.StaleBlitableNotConverted | Dazzle.FixedBlitableConverted |
