# HeightMap in Dafny

A model of the `HeightMap` class of a Unity terrain editor. A height map is a row-major grid of
samples whose width and height are powers of two. A cell is addressed as (x, y) with wrap-around:
the column is masked with `width - 1` and the row with `height - 1`. The editor changes the grid
in place with whole-grid sweeps:

- stamping a circle;
- three 2×2 block filters (mean, maximum, minimum);
- fading the four borders;
- exporting to a grey texture and importing from one.

Samples are `real`. The class keeps its fields `width`, `height` and the sample array, which is
called `samples` here because `map` is a Dafny keyword. Every sweeping method is proved against
a function on sequences that says what the sweep produces. The properties of the editor are then
proved as lemmas about those functions.

Modules:

- `Grid` (grid.dfy): the power-of-two test, the wrap-around index, and its bit-mask form.
- `Circles` (circles.dfy): the circle stamp.
- `Smoothing` (smoothing.dfy): the block filters and the row-major sweep that applies them.
- `Fading` (fading.dfy): the four border passes.
- `Pixels` (pixels.dfy): grey colours and the texture layout.
- `HeightMaps` (heightmap.dfy): the `HeightMap` class and its methods.

## Model

| member | source | states |
|---|---|---|
| Grid.IsPowerOfTwo | Assets/Editor/HeightMap.cs:49-50 | the dimension test: whatever passes it is at least 1, and 1 passes |
| Grid.DoublingReaches | Assets/Editor/HeightMap.cs:49-50 | doubling p reaches n only when n >= p, which is what makes the test refuse zero and negative dimensions |
| Grid.PowerOfTwoStep | Assets/Editor/HeightMap.cs:47-50 | a power of two is 1, or an even number at least 2 whose half is a power of two |
| Grid.PowerOfTwoParity | Assets/Editor/HeightMap.cs:47-50 | a dimension that passes the check is positive, and is 1 or even |
| Grid.DoublingFromDouble | Assets/Editor/HeightMap.cs:47-50 | reaching n by doubling from 2p is the same as n being even and reaching n/2 from p |
| Grid.BitAnd | Assets/Editor/HeightMap.cs:44 | two's-complement `x & mask` for a non-negative mask lies in [0, mask] |
| Grid.MaskIsMod | Assets/Editor/HeightMap.cs:44 | for a power of two n, `x & (n - 1)` equals the Euclidean x mod n, negative x included |
| Grid.ToIndex | Assets/Editor/HeightMap.cs:42-45 | the index of any integer cell lies in [0, width*height) |
| Grid.ToIndexIsBitMask | Assets/Editor/HeightMap.cs:42-45 | for power-of-two dimensions the index is `(x & (width-1)) + (y & (height-1)) * width` |
| Grid.ToIndexInBounds | Assets/Editor/HeightMap.cs:42-45 | inside the grid the index is `x + y*width` |
| Grid.CellOf | Assets/Editor/HeightMap.cs:42-45 | a row-major index gives back its column (mod width) and its row (div width) |
| Grid.IndexToCell | Assets/Editor/HeightMap.cs:42-45 | every sample index is the index of the in-grid cell (i mod width, i div width), so the index is onto |
| Grid.ToIndexInjective | Assets/Editor/HeightMap.cs:42-45 | distinct in-grid cells have distinct indices |
| Grid.ToIndexWrapsX | Assets/Editor/HeightMap.cs:44 | `ToIndex(x + width, y) == ToIndex(x, y)` |
| Grid.ToIndexWrapsY | Assets/Editor/HeightMap.cs:44 | `ToIndex(x, y + height) == ToIndex(x, y)` |
| Grid.CellInRange | Assets/Editor/HeightMap.cs:42-45 | an in-grid cell's row-major index lies in the sample array |
| Grid.DivModUnique | Assets/Editor/HeightMap.cs:44 | proof helper for the masking proofs: any quotient with an in-range remainder is the Euclidean division, as the masking arithmetic relies on |
| Grid.ModOfDouble | Assets/Editor/HeightMap.cs:44 | proof helper for `MaskIsMod`: the remainder mod 2m is the low bit plus twice the remainder of the half mod m |
| Grid.MultipleAwayFromZero | Assets/Editor/HeightMap.cs:44 | proof helper for `DivModUnique`: a non-zero multiple of a positive d is at least d away from 0 |
| Grid.Spliced | Assets/Editor/HeightMap.cs:105-115 | a row-major sweep part-way through keeps the length of the grid |
| Grid.SplicedEnds | Assets/Editor/HeightMap.cs:105-115 | before a sweep the grid is the old one; after it, the target one |
| Grid.SplicedStep | Assets/Editor/HeightMap.cs:105-115 | the next cell is still old; writing its final value advances the sweep by one, and so does skipping a cell whose value does not change |
| Grid.SplicedSkip | Assets/Editor/HeightMap.cs:234-245 | the sweep passes over any stretch of cells whose final value is their old one |
| Grid.RowsCovered | Assets/Editor/HeightMap.cs:61 | proof helper for the export loop: once the row counter reaches the height, all width*height samples have been passed |
| Grid.EvenStep | Assets/Editor/HeightMap.cs:234-236 | proof helper for the block loops: stepping an even coordinate by 2 keeps it even |
| Circles.InCircle | Assets/Editor/HeightMap.cs:110 | the strict test `(x-h)²+(y-k)² < radius²`; no cell passes it when the radius is 0 |
| Circles.Circled | Assets/Editor/HeightMap.cs:103-116 | the stamped grid has the same size as the old one |
| Circles.CircledAt | Assets/Editor/HeightMap.cs:103-116 | a cell with `(x-h)²+(y-k)² < radius²` holds its old value plus the weight; every other cell holds its old value |
| Circles.CircleOnZeroGrid | Assets/Editor/HeightMap.cs:103-116 | on an all-zero grid, cells inside the circle hold the weight and the rest stay 0 |
| Circles.ZeroRadiusChangesNothing | Assets/Editor/HeightMap.cs:110 | with radius 0 the strict test admits no cell, so the grid is unchanged |
| Smoothing.Max4 | Assets/Editor/HeightMap.cs:254-259 | the maximum is at least each of the four values and is one of them |
| Smoothing.Min4 | Assets/Editor/HeightMap.cs:270-275 | the minimum is at most each of the four values and is one of them |
| Smoothing.Aggregate | Assets/Editor/HeightMap.cs:238-243 | the mean, maximum and minimum of a block all lie between the block's minimum and maximum |
| Smoothing.BlockValue | Assets/Editor/HeightMap.cs:238-242 | the filter of the four reads (x,y), (x,y+1), (x+1,y), (x+1,y+1) lies between their minimum and maximum; the maximum filter is at least each read and the minimum filter at most each |
| Smoothing.Smoothed | Assets/Editor/HeightMap.cs:232-278 | a filter pass keeps the size of the grid |
| Smoothing.SmoothedAt | Assets/Editor/HeightMap.cs:232-278 | an even-even cell becomes the filter of the old (x,y), (x,y+1), (x+1,y), (x+1,y+1); every cell with an odd coordinate keeps its value |
| Smoothing.SmoothedBlock | Assets/Editor/HeightMap.cs:238-243 | on an even-sided grid a block does not wrap: its other cells are the next sample, the sample one row up and the one after, and the corner becomes the filter of those four old samples |
| Smoothing.NeighbourIndices | Assets/Editor/HeightMap.cs:238-241 | away from the last column and row, the right and upper neighbours are at +1, +width and +width+1 |
| Smoothing.HighNeverLowers | Assets/Editor/HeightMap.cs:248-262 | after SmoothHigh no cell is below its old value |
| Smoothing.LowNeverRaises | Assets/Editor/HeightMap.cs:264-278 | after SmoothLow no cell is above its old value |
| Smoothing.StepFromEven | Assets/Editor/HeightMap.cs:239-241 | a wrapped step of 0 or 1 from an even coordinate stays put or lands on an odd coordinate |
| Smoothing.BlockReadsNoOtherCorner | Assets/Editor/HeightMap.cs:238-241 | the four reads of a block hit its own corner or non-corner cells, so no read sees another block's result |
| Smoothing.NextIsNoCorner | Assets/Editor/HeightMap.cs:236 | the cell after a corner in row-major order is not a corner |
| Smoothing.OddRowHasNoCorner | Assets/Editor/HeightMap.cs:234 | an odd row holds no corner |
| Smoothing.SmoothedKeepsNonCorners | Assets/Editor/HeightMap.cs:232-278 | a filter pass leaves alone every cell that is not a block corner (`IsBlockCorner`: even column and even row, the cells the source's step-2 loops visit) |
| Smoothing.SweepReadUnfiltered | Assets/Editor/HeightMap.cs:238-241 | part-way through the sweep, each read of the current block sees the old sample |
| Smoothing.SweepBlockReads | Assets/Editor/HeightMap.cs:238-241 | part-way through the sweep, the current block's filter value equals its value on the old grid |
| Smoothing.SweepBlockWrite | Assets/Editor/HeightMap.cs:243 | writing a corner's final value advances the sweep past the corner and the non-corner after it |
| Smoothing.SweptTo | Assets/Editor/HeightMap.cs:234-236 | the sweep state at block (x, y) keeps the size of the grid |
| Smoothing.SweptToEnds | Assets/Editor/HeightMap.cs:234-236 | the sweep starts at the old grid and, past the last row, is the filtered grid |
| Smoothing.SweepRowEnd | Assets/Editor/HeightMap.cs:236 | leaving a row of blocks is the same as starting the next row pair |
| Smoothing.SkipOddRow | Assets/Editor/HeightMap.cs:234 | the sweep skips from the end of an even row past the odd row above it |
| Smoothing.RowEndColumn | Assets/Editor/HeightMap.cs:236 | the column counter leaves a power-of-two row at exactly the width, or at 2 on a 1-wide grid |
| Smoothing.SweepBlock | Assets/Editor/HeightMap.cs:238-243 | writing the block's filter value, read from the current grid, into its corner moves the sweep to the next block |
| Fading.Ripple | Assets/Editor/HeightMap.cs:189 | `sin(x)/2 + 0.5` lies in [0, 1] whenever the sine lies in [-1, 1] |
| Fading.FactorInUnit | Assets/Editor/HeightMap.cs:182-220 | about `Fading.Factor`, the four ramps: the bottom and left factors are 0 on line 0, and each band's factor lies in [0, 1] on every line of its band (the bottom one for a sine in [-1, 1]) |
| Fading.OuterLineFactors | Assets/Editor/HeightMap.cs:182-220 | on the outermost line of its band the bottom and left factors are 0, while the top and right factors are 1 / distance, since their ramps start one line beyond the grid |
| Fading.RampInUnit | Assets/Editor/HeightMap.cs:199-217 | proof helper for `FactorInUnit`: k / d lies in [0, 1] for 0 <= k <= d |
| Fading.ProductInUnit | Assets/Editor/HeightMap.cs:190 | proof helper for `FactorInUnit`: a product of two numbers in [0, 1] is in [0, 1] |
| Fading.NonNegativeProduct | Assets/Editor/HeightMap.cs:190 | proof helper for `ProductInUnit`: a product of non-negative reals is non-negative |
| Fading.LineScaled | Assets/Editor/HeightMap.cs:187-191 | scaling one line keeps the size of the grid; by definition each cell on the line (`OnLine`, the wrapped row or column that `this[x, y]` addresses) is multiplied by its factor (`ScaledSample`, the `*=`) |
| Fading.Faded | Assets/Editor/HeightMap.cs:185-192 | a band pass keeps the size of the grid |
| Fading.EdgesFaded | Assets/Editor/HeightMap.cs:182-220 | the four passes keep the size of the grid |
| Fading.LineCellOnLine | Assets/Editor/HeightMap.cs:187-190 | the cell at a position on a line lies on that line at that position, and no other cell does |
| Fading.AlongInLine | Assets/Editor/HeightMap.cs:187 | every sample sits at a position inside its line |
| Fading.FadedOffLines | Assets/Editor/HeightMap.cs:185-192 | a pass over lines that do not hold a cell leaves that cell alone |
| Fading.FadedKeepsZero | Assets/Editor/HeightMap.cs:190 | passes only multiply, so a zero sample stays zero |
| Fading.FadedZeroesFirstLine | Assets/Editor/HeightMap.cs:185-190 | the bottom and left passes zero their line 0, because the factor there is 0 |
| Fading.FadeWithoutDistance | Assets/Editor/HeightMap.cs:182-220 | with distance 0 (or less) the grid is unchanged |
| Fading.FadeZeroesOuterEdges | Assets/Editor/HeightMap.cs:182-220 | with a positive distance every cell of column 0 or row 0 ends up 0 |
| Fading.FadeKeepsInterior | Assets/Editor/HeightMap.cs:182-220 | a cell with `d <= x < width-d` and `d <= y < height-d` is unchanged |
| Fading.LinePartlyScaled | Assets/Editor/HeightMap.cs:187-191 | a line scaled up to a position keeps the size of the grid |
| Fading.LinePartlyScaledStart | Assets/Editor/HeightMap.cs:187 | at position 0 nothing on the line has been scaled |
| Fading.LinePartlyScaledEnd | Assets/Editor/HeightMap.cs:187 | past the last position the whole line has been scaled |
| Fading.LinePartlyScaledStep | Assets/Editor/HeightMap.cs:190 | the cell at the next position (`LineCell`, the wrapped cell `this[x, y]` addresses) is still unscaled, and scaling it moves the line on by one position |
| Pixels.GreyLevel | Assets/Editor/HeightMap.cs:66 | any grey level that weighs red, green and blue with weights summing to 1 reads the colour of a sample back as that sample |
| Pixels.PixelIndexAsWritten | Assets/Editor/HeightMap.cs:66 | the pixel index as the export loop computes it, `y * height + x`; on a square map it is the row-major index `y * width + x` |
| Pixels.PixelIndexIsCellIndex | Assets/Editor/HeightMap.cs:66 | with width as the row stride (`PixelIndex`), a cell's pixel is its sample index, in range and one-to-one |
| Pixels.AsWrittenStrideCollides | Assets/Editor/HeightMap.cs:66 | for every power-of-two map wider than high and at least 2 high, cells (0, 1) and (height, 0) lie in the grid and share the as-written pixel, while their width-stride pixels differ |
| Pixels.AsWrittenStrideOverruns | Assets/Editor/HeightMap.cs:66 | for every power-of-two map higher than wide, the last cell's as-written pixel is at least width * height, past the end of the colour array |
| HeightMaps.Clamp01 | Assets/Editor/HeightMap.cs:38 | the result is in [0, 1] and equals the input exactly when the input is in [0, 1] |
| HeightMaps.HeightMap.constructor | Assets/Editor/HeightMap.cs:7-9 | a new map has zero dimensions and an empty sample array; in the source the array field is null until `Init`, and no operation of the model reads it before then |
| HeightMaps.HeightMap.Get | Assets/Editor/HeightMap.cs:11-13 | the (x, y) getter reads the wrapped cell; inside the grid that is sample `x + y*width` |
| HeightMaps.HeightMap.GetWraps | Assets/Editor/HeightMap.cs:42-45 | `this[x + width, y]` and `this[x, y + height]` read the same sample as `this[x, y]` |
| HeightMaps.HeightMap.GetLinear | Assets/Editor/HeightMap.cs:37 | the linear getter reads sample i, which on a valid map is cell (i mod width, i div width) |
| HeightMaps.HeightMap.Set | Assets/Editor/HeightMap.cs:11-15 | the (x, y) setter stores the value unclamped at the wrapped cell and changes no other cell |
| HeightMaps.HeightMap.SetLinear | Assets/Editor/HeightMap.cs:35-39 | the linear setter stores the clamped value, which is in [0, 1] and equals the given value exactly when that is in [0, 1]; no other sample changes |
| HeightMaps.HeightMap.Init | Assets/Editor/HeightMap.cs:47-54 | a width that is not a power of two fails first, then a height; on success the map is valid with the given dimensions and a fresh w*h array in which every sample and every cell is 0 |
| HeightMaps.HeightMap.GetTexture | Assets/Editor/HeightMap.cs:56-73 | the texture has the map's dimensions and width*height pixels; the pixel of cell (x, y) is the opaque grey of that cell's sample; the map is not modified |
| HeightMaps.HeightMap.ExportRow | Assets/Editor/HeightMap.cs:63-67 | after row y, every pixel of rows 0..y is the grey of its sample and every pixel past row y is unchanged |
| HeightMaps.HeightMap.SetFromTexture | Assets/Editor/HeightMap.cs:75-86 | the dimensions are copied from the texture; the fresh array has one grey level per pixel; the map is valid exactly when the texture's dimensions are powers of two and its pixels fill them |
| HeightMaps.HeightMap.AddCircle | Assets/Editor/HeightMap.cs:103-116 | the samples become `Circled` of the old samples, which `CircledAt` and `CircleOnZeroGrid` describe cell by cell |
| HeightMaps.HeightMap.SmoothAverage | Assets/Editor/HeightMap.cs:232-246 | the samples become the mean-filtered old samples (`SmoothedAt`) |
| HeightMaps.HeightMap.SmoothHigh | Assets/Editor/HeightMap.cs:248-262 | the samples become the max-filtered old samples (`SmoothedAt`, `HighNeverLowers`) |
| HeightMaps.HeightMap.SmoothLow | Assets/Editor/HeightMap.cs:264-278 | the samples become the min-filtered old samples (`SmoothedAt`, `LowNeverRaises`) |
| HeightMaps.HeightMap.SmoothBlocks | Assets/Editor/HeightMap.cs:234-245 | the in-place row-major block sweep computes the filter of the old grid, because every read sees an old sample |
| HeightMaps.HeightMap.SmoothRow | Assets/Editor/HeightMap.cs:236-244 | one row of blocks moves the sweep from row y to row y + 2 |
| HeightMaps.HeightMap.FilterBlock | Assets/Editor/HeightMap.cs:238-243 | one block writes its filter value into its corner and changes nothing else |
| HeightMaps.HeightMap.FadeEdges | Assets/Editor/HeightMap.cs:182-220 | the samples become `EdgesFaded` of the old samples: bottom, top, left and right passes in that order |
| HeightMaps.HeightMap.FadeBand | Assets/Editor/HeightMap.cs:185-192 | one band's lines, lo to hi - 1 in order, each multiplied through |
| HeightMaps.HeightMap.FadeLine | Assets/Editor/HeightMap.cs:187-191 | every cell on one line is multiplied by its factor; no other cell changes |
| HeightMaps.ExportThenImport | Assets/Editor/HeightMap.cs:56-86 | exporting to a texture and importing it back with a grey level that inverts `Grey` restores the dimensions, validity and every sample; the export uses the row-major `y * width + x` stride, and under the source's `y * height + x` the round trip holds on square maps only (a 4×2 map never writes pixels 6 and 7); see "## Findings" |
| HeightMaps.ExportThenImportWeighted | Assets/Editor/HeightMap.cs:56-86 | the same round trip for every grey level that weighs the three channels with weights summing to 1 |

## Left out

- `Sine` (Assets/Editor/HeightMap.cs:88-101): float trigonometry that ignores its `freq` argument and discards the result of its `Clamp` call, so it has no contract worth stating.
- `AddCone` and `MaskCircle` (Assets/Editor/HeightMap.cs:118-133, 164-180): their values rest on floating-point square roots.
- `AddPerlin` (Assets/Editor/HeightMap.cs:141-162): it calls Unity's Perlin noise, whose definition is not part of this model.
- `JaggedCliffCurve` and `ErodedCliffCurve` (Assets/Editor/HeightMap.cs:222-230): random or pure sine helpers that are never called.
- The normalised float indexer (Assets/Editor/HeightMap.cs:17-33): its cell choice rests on float rounding to the nearest integer.
- Assets/Editor/HeightMapGeneratorWindow.cs: editor GUI, undo, PNG encoding and file I/O.
- Unity's `Texture2D`, `SetPixels` and `Apply`: a texture is a value holding its dimensions and pixels, with exact real channels.
- HeightMaps.ExportThenImport: the exact round trip holds only for this lossless texture. The source's `new Texture2D(width, height)` stores 8-bit channels, so `SetPixels` clamps every channel to [0, 1] and rounds it to a multiple of 1/255. A sample of 2.0 comes back as 1.0, and a sample in [0, 1] comes back only to within 1/510. The model does not capture this clamping or rounding.
- `Color.grayscale`: a parameter of `SetFromTexture`, not Unity's luminance formula.
- `Mathf.Sin` in the bottom fade pass: a parameter `sin` giving the sine of each integer column.
- IEEE single-precision rounding: samples, factors and channels are exact reals.
- Grid.IsPowerOfTwo: it holds exactly for the positive powers 1, 2, 4, …, so it refuses 0 and negative dimensions. `Mathf.IsPowerOfTwo` is not part of this model; a bit-trick implementation of it, `(n & (n - 1)) == 0`, accepts 0, so `Init(0, 0)` may pass in the source and fail here.
- 32-bit `int` overflow of `width * height` and of the loop indices: integers are unbounded.
- Circles.InCircle: the squared distance `(x - h)*(x - h) + (y - k)*(y - k)` is a 32-bit `int` in the source, and it wraps in C#'s default unchecked context. With h = 50000, k = 0 and cell (0, 0) it wraps to a negative number, so the source stamps that cell even for radius 0. The model computes the distance exactly, so `CircledAt` and `ZeroRadiusChangesNothing` agree with the source only while the squared distance stays below 2^31. The editor's sliders keep h and k within the map size.
- HeightMaps.HeightMap.Init: Unity's `Assert.IsTrue` is modelled as a failing call that leaves the object unchanged. Builds where a failed assertion only logs and execution continues are not modelled, and neither is the exception for a negative array size.
- SmoothRow, FilterBlock, FadeBand and FadeLine split the source's nested loops into one method per loop. The reads and writes are the same, in the same order.
- Operations other than `Init` and `SetFromTexture` are modelled on valid maps only, whose dimensions are powers of two. `SetFromTexture` copies any texture's dimensions, so the source can hold a 3×3 map; there the mask addressing of `Get` and `Set` aliases cells (the mask is 2, and `0 & 2 == 1 & 2 == 0` while `2 & 2 == 2`, so x = 0 and x = 1 share column 0 and column 1 is never addressed; only samples 0, 2, 6 and 8 of the 9 are reachable). No caller in the source imports such a texture, and the model does not describe that map's behaviour.
- The top and right fade passes compute `(height - line) / distance` and `(width - line) / distance`, so their outermost line is scaled by 1 / distance rather than 0, unlike the bottom and left passes; the model follows the code (`Fading.OuterLineFactors`).
- HeightMaps.HeightMap.ExportRow: the inner export loop, split out the same way, writes each cell's colour at `y * width + x`. The source writes at `y * height + x`. The two agree on square maps only; see the "## Findings" row.

## Findings

| source | as written | input that shows it | evidently intended | confidence | as-written member | corrected member |
|---|---|---|---|---|---|---|
| Assets/Editor/HeightMap.cs:66 | the colour of cell (x, y) is stored at `y * height + x` | a 4×2 map: cells (0,1) and (2,0) both go to pixel 2. A 1×2 map: cell (0,1) goes to pixel 2 of a 2-pixel array | rows `width` pixels apart, `y * width + x`; the same on the square maps the editor makes | high, not executed | Pixels.AsWrittenStrideCollides, Pixels.AsWrittenStrideOverruns | Pixels.PixelIndexIsCellIndex, HeightMaps.HeightMap.GetTexture |
