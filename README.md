# FreeType bitmap-to-SDF raster ("bsdf"): distance-map seeding and parameter checks

This project models the logic in FreeType's `src/sdf/ftbsdf.c`, the raster that turns an
8-bit coverage bitmap into a signed distance field. That file implements two things.

- **Seeding the distance map** (`bsdf_init_distance_map`).
  - The caller's `width × rows` grid of `ED` records is filled in place, row-major, by two
    nested loops.
  - The source bitmap is centred in the grid. The leading padding on each axis is half the
    slack, rounded down.
  - A padding cell gets the sentinel `FT_INT_MAX` ("no boundary known yet").
  - A cell over the source gets the coverage of the sample it reads, in 16.16 fixed point.
    Sample 255 is promoted to 256 first, so that full coverage is meant to be exactly 1.0.
    The 16-bit `pixel_value` loses this (see "Left out").
  - With `flip_y` the source rows are read bottom-up.
  - The source is indexed with its width as the row stride. Its `pitch` is never used, and
    the model does the same.
  - Only the `dist` field of a record is written. `near` is never touched.
  - Before writing anything the function rejects, in order:
    - a missing source or worker;
    - a target smaller than the source;
    - an unset pixel mode.
  - Only 8-bit gray (`FT_PIXEL_MODE_GRAY`) is implemented. Every other mode gives
    `Unimplemented_Feature`, and the map is left untouched.
- **Validating render parameters** (`bsdf_raster_render`). These checks run in order, before
  any allocation:
  1. a missing raster or parameter block;
  2. a flag other than `FT_RASTER_FLAG_SDF`;
  3. a missing source or target bitmap;
  4. a missing memory handle;
  5. a spread outside `[MIN_SPREAD, MAX_SPREAD]`.

  Check 2 gives `Raster_Corrupted`, check 4 gives `Invalid_Handle`, and checks 1, 3 and 5 give
  `Invalid_Argument`.

The algorithm named in the file's comments (the 8-point sequential Euclidean distance mapping)
goes on to propagation sweeps and an output encoder. Neither exists in this file, so neither
is modelled.

Modules:
- `BsdfTypes` (`bsdf_types.dfy`): error codes, pixel modes, bitmaps, the parameter blocks, `ED`,
  the worker, and the constants.
  - `FT_INT_MAX = 0x7FFFFFFF`.
  - The values of `MIN_SPREAD` (2), `MAX_SPREAD` (32) and `FT_RASTER_FLAG_SDF` (0x20) are
    FreeType's. The headers that define them (`ftsdf.h`, `ftimage.h`) are not part of this
    model.
  - Null pointers are `Option.None`.
  - The worker is a record that holds a reference to the distance-map `array`. The seeding
    function never changes the worker's own fields, only the cells of its array.
- `BsdfSeed` (`bsdf_seed.dfy`): the pure formulas and their lemmas:
  - centring offsets, the row flip, source indexing and sample-to-coverage conversion;
  - the specification `SeededMap` of the map the loops leave behind;
  - flat-index arithmetic lemmas.
- `BsdfInit` (`bsdf_init.dfy`): the error decision of `bsdf_init_distance_map`, and the
  method itself.
  - The method's nested `while` loops write `array<ED>` in place.
  - It is proved equal to `SeededMap` on success and to leave the array unchanged on error.
- `BsdfRender` (`bsdf_render.dfy`): the check chain of `bsdf_raster_render` as a function.

What the code checks and does not check:
- Every pixel mode other than NONE and GRAY gives `Unimplemented_Feature`, including a
  `pixel_mode` value that names no mode (`PixelMode.Other`).
- A zero-sized source is not rejected: a 0×0 source is seeded as all padding.
- Only the three argument errors listed above are checked before seeding.

## Model

| member | source | states |
|---|---|---|
| `BsdfSeed.FlatIndexDecode` | src/sdf/ftbsdf.c:177-181 | cell `(t_i, t_j)` of the target grid has flat index `t_j*width + t_i` inside `[0, width*rows)`, and that index decodes back to the same column and row |
| `BsdfSeed.FlatIndexCovers` | src/sdf/ftbsdf.c:177-181 | every flat index `k` in `[0, width*rows)` is the index of grid cell `(k % width, k / width)`; with `FlatIndexDecode` this makes the loops' `(t_i, t_j) ↦ t_j*width + t_i` a bijection onto the map, so every record is visited exactly once |
| `BsdfSeed.CenterOffset` | src/sdf/ftbsdf.c:140-144 | the centring offset is half the slack, rounded down: leading padding ≤ trailing padding ≤ leading padding + 1 |
| `BsdfSeed.SourceRow` | src/sdf/ftbsdf.c:197-200 | the source row read for window row `s_j` (bottom-up when `flip_y`) is a row of the source |
| `BsdfSeed.SourceRowInvolutive` | src/sdf/ftbsdf.c:197-198 | the flipped row map `s_rows - s_j - 1` is its own inverse |
| `BsdfSeed.SourceRowInjective` | src/sdf/ftbsdf.c:197-200 | distinct window rows read distinct source rows, with or without `flip_y` |
| `BsdfSeed.SourceIndex` | src/sdf/ftbsdf.c:197-200 | the source index of every in-window pixel is within `[0, s_width*s_rows)`, with or without `flip_y` |
| `BsdfSeed.SourceIndexDecode` | src/sdf/ftbsdf.c:197-200 | the source index has column `s_i` and the (possibly flipped) row, with `s_width` as the stride |
| `BsdfSeed.SourceIndexInjective` | src/sdf/ftbsdf.c:197-200 | no two window pixels read the same source sample |
| `BsdfSeed.SourceIndexOnto` | src/sdf/ftbsdf.c:197-200 | every source sample is read by some window pixel, which the lemma names |
| `BsdfSeed.Coverage` | src/sdf/ftbsdf.c:202-214 | a sample becomes a coverage in `[0, 1.0]` in 16.16; it is exactly 1.0 (65536) iff the sample is 255, and any other sample `v` becomes `v*256` (so 0 gives 0) |
| `BsdfSeed.CoverageStrictlyMonotone` | src/sdf/ftbsdf.c:202-214 | the conversion preserves the order of samples; in particular 254 and 255 stay distinct |
| `BsdfSeed.CellDist` | src/sdf/ftbsdf.c:186-214 | the `dist` a cell receives is `FT_INT_MAX` iff the cell is padding (its source coordinate is outside `[0,s_width)×[0,s_rows)`), and lies in `[0, 1.0]` otherwise |
| `BsdfSeed.SeededPrefix` | src/sdf/ftbsdf.c:177-215 | the first `n` records, in the row-major order the loops write them, are `n` records, and each keeps the `near` it had: the loops assign only `dist` |
| `BsdfSeed.SeededMap` | src/sdf/ftbsdf.c:177-216 | seeding yields exactly one record per target cell, and no record's `near` changes |
| `BsdfSeed.SeededPrefixAt` | src/sdf/ftbsdf.c:181-214 | record `k` of the seeded map is the input record `k` with `dist` replaced by the value of the cell `(k % width, k / width)` |
| `BsdfSeed.SeededMapAt` | src/sdf/ftbsdf.c:181-214 | cell `(t_i, t_j)` is written at flat index `t_j*width + t_i`, and receives the cell value `CellDist` |
| `BsdfSeed.SeededMapPaddingExactly` | src/sdf/ftbsdf.c:189-214 | in the seeded map a cell holds `FT_INT_MAX` iff it is padding, and otherwise holds a coverage in `[0, 1.0]` |
| `BsdfSeed.SeededMapIdempotent` | src/sdf/ftbsdf.c:177-215 | seeding ignores the previous `dist` values, so seeding an already seeded map changes nothing |
| `BsdfSeed.CentredPlacement` | src/sdf/ftbsdf.c:140-144 | source pixel `(s_i, s_j)` lands on target cell `(s_i + x_diff, s_j + y_diff)`; that cell is inside the grid and over the window, and receives the coverage of the sample that pixel reads |
| `BsdfSeed.SampleReaderIsNamed` | src/sdf/ftbsdf.c:197-200 | a window pixel that reads sample `s` is the pixel at column `s % s_width` and the (possibly flipped) row `s / s_width`, with or without `flip_y` |
| `BsdfSeed.SampleReadOnce` | src/sdf/ftbsdf.c:186-200 | each source sample is read by exactly one in-window target cell, with or without `flip_y` |
| `BsdfInit.InitError` | src/sdf/ftbsdf.c:100-225 | the result is `Ok` iff source and worker are present, the target is at least as large as the source, and the mode is GRAY. It is `Unimplemented_Feature` iff the same holds except that the mode is neither NONE nor GRAY. Every other case is `Invalid_Argument` |
| `BsdfInit.TooSmallTargetRejected` | src/sdf/ftbsdf.c:111-116 | a target narrower or shorter than the source gives `Invalid_Argument` whatever the pixel mode, because the size check precedes the mode checks |
| `BsdfInit.PixelModeDecides` | src/sdf/ftbsdf.c:119-224 | once the sizes fit: NONE gives `Invalid_Argument`, GRAY gives `Ok`, and MONO, GRAY2, GRAY4, GRAY16, LCD, LCD_V, BGRA and any unnamed `pixel_mode` value (the `default` branch) give `Unimplemented_Feature` |
| `BsdfInit.SeedGray` | src/sdf/ftbsdf.c:167-219 | the nested `t_j`/`t_i` loops leave the distance map equal to `SeededMap` of its old contents |
| `BsdfInit.InitDistanceMap` | src/sdf/ftbsdf.c:87-229 | returns `InitError`; on any error no cell is written; on success the map is `SeededMap` of its old contents |
| `BsdfRender.ValidateRender` | src/sdf/ftbsdf.c:296-344 | `Ok` iff every check passes. `Raster_Corrupted` iff raster and params are present but the flag is wrong. `Invalid_Handle` iff the checks before it pass and the memory handle is missing. Otherwise `Invalid_Argument` |
| `BsdfRender.EarlierCheckDecides` | src/sdf/ftbsdf.c:303-344 | once the flag check fails, the bitmaps, memory handle and spread cannot change the result |
| `BsdfRender.SpreadOutOfRangeRejected` | src/sdf/ftbsdf.c:330-344 | when the earlier checks pass, the result is `Invalid_Argument` iff the spread is outside `[MIN_SPREAD, MAX_SPREAD]`; for example `MIN_SPREAD - 1` is rejected |
| `BsdfRender.ValidationIgnoresBitmapsAndSettings` | src/sdf/ftbsdf.c:296-344 | validation depends on the bitmaps only through their presence, and not on `flip_y` or `overlaps` |

## Left out

- Allocation, and everything `bsdf_raster_render` does after its checks (src/sdf/ftbsdf.c:346-357) are not modelled.
  - As written, the `FT_QALLOC_MULT` test at :349-351 jumps to `Exit` when the allocation succeeds. So the seeding function is never reached on that path, and the map is not freed.
  - The model does not connect the render checks to the seeding, and claims nothing about that path.
  - `InitDistanceMap` takes a caller-supplied array of `width * rows` records instead.
- Memory management is not modelled: `bsdf_raster_new`, `bsdf_raster_done`, `FT_ALLOC` and `FT_FREE` (src/sdf/ftbsdf.c:238-254, 363-370) are host-allocator plumbing.
- `bsdf_raster_reset`, `bsdf_raster_set_mode` and the `FT_DEFINE_RASTER_FUNCS` registration (src/sdf/ftbsdf.c:256-278, 372-382) are not modelled. They contain no logic.
- Tracing and error logging (`FT_TRACE0`, `FT_ERROR`) are not modelled, because they have no observable state.
- Coverage: computed in mathematical integers, following the intent stated at src/sdf/ftbsdf.c:204-211.
  - In the C, `pixel_value` is an `FT_Short`, so the result of `<<= 8` does not fit for samples of 128 and above. For example, 256 becomes 65536.
  - Storing such a result back is an implementation-defined narrowing conversion. It typically yields 0 for a fully covered pixel and negative values for samples 128 to 254.
  - The model does not reproduce that narrowing.
- InitError: integer widths are not modelled.
  - Widths and row counts are unbounded naturals.
  - The C compares `FT_Int` with `unsigned int` at :111-112, and computes `t_j * t_width` in `FT_Int`.
  - Values that would wrap or change sign in those conversions are not modelled.
- InitDistanceMap: its two `requires` clauses are the caller's memory-safety obligations, which the C relies on without checking:
  - the distance map holds exactly `width * rows` records;
  - a GRAY source buffer holds at least `width * rows` samples.
- The null worker check at src/sdf/ftbsdf.c:101 is modelled as an absent `Option`. The C's `const` qualifiers and pointer aliasing are not modelled.
- The 8SED propagation sweeps, sign determination and spread-clamped output encoding are not modelled: they do not exist in this file.
