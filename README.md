# pixelator: the life engine and the image helpers, in Dafny

pixelator turns an image into an animation of Conway's Game of Life. The
image's pixels seed the grid: by luminance in Light or Dark mode, or by
random draws in Random mode. Every generation then steps the grid by the
B3/S23 rule and recolours a copy of the raster:

- a surviving cell keeps its pixel;
- a newborn cell gets its live neighbours' old colours blended in scan order,
  made opaque;
- every other pixel fades by a saturating alpha decay.

The animation is five copies of the starting image followed by the raster
after each generation. The library also provides:

- `pixelate`, which averages square blocks;
- `fit`, which lists the sizes an image divides into evenly;
- `map_onto_whitespace`, which paints one luminance class white.

The model follows the program's two source files:

| file | module | what it holds |
|---|---|---|
| raster.dfy | `Raster` | pixels, channels, image buffers as `array2<Pixel>` indexed `[y, x]`, their row-major contents, clone and snapshot |
| cells.dfy | `Cells` | cell states, grids, the Moore count, the 3×3 scan, `neighbors` and `neighbors_coords` as loops |
| step.dfy | `Generation` | the generation step as functions on values, its cell-by-cell properties, and `step` as nested loops over a cloned buffer |
| lib.dfy | `Lib` | `Mode` and `map_onto_whitespace` |
| seeding.dfy | `Seeding` | random seeding and `map_onto_cells` |
| life.dfy | `Life` | `begin_life` and the frames it emits |
| pixelate.dfy | `Pixelate` | block sums and averages, `pixelate` as loops, and the `u32` accumulators as written |
| fit.dfy | `Fit` | `fit` as a loop, and the pairs it pushes |
| arith.dfy, wrappers.dfy | `Arith`, `Wrappers` | integer facts, `Option` and `Result` |

Each imperative operation is a method whose postcondition ties its result,
or the new buffer contents, to a specification function. The lemmas then
prove what the program promises about that function. The foreign operators
are parameters:

- `Pixel::blend` is `blend(destination, source)`.
- The luminance classification (`to_luma8` with `index_colors` and the
  `BiLevel` palette) is `bucket`.
- The palette lookup is `lookup`.
- The random generator is the sequence `draws` of positions it yields.

## Model

| member | source | states |
|---|---|---|
| Raster.CloneImage | src/conway.rs:86 | the clone is a fresh buffer of the same size holding the same pixels |
| Raster.Snapshot | src/conway.rs:72-73 | the frame pushed is the buffer's contents at that moment |
| Cells.DeadGrid | src/conway.rs:87 | a `width` × `height` grid in which every cell is Dead |
| Cells.NeighborCount | src/conway.rs:134-161 | the Moore count of live in-grid neighbours is at most 8 |
| Cells.ScanTotal | src/conway.rs:142-158 | defines the running total of the 3×3 scan after its first `k` positions, the centre included; it never exceeds `k` |
| Cells.ScanCoords | src/conway.rs:171-188 | defines the vector pushed after the first `k` positions of the scan; its properties are the four `ScanCoords…` lemmas below |
| Cells.ScanTotalIsCountPlusCentre | src/conway.rs:137-160 | the full 3×3 scan counts the Moore count plus the centre's own state, so subtracting the centre first leaves exactly the Moore count |
| Cells.CentreNotCounted | src/conway.rs:139-141 | changing the centre cell's state never changes its own count |
| Cells.CountIsLocal | src/conway.rs:142-158 | the count depends only on the in-grid cells of the 3×3 block, not on the opposite edge: there is no wrap-around |
| Cells.EdgeCounts | src/conway.rs:144 | positions outside the grid are skipped: an edge cell counts at most 5 neighbours, a corner at most 3 |
| Cells.Neighbors | src/conway.rs:134-161 | the returned total is the Moore count and lies in 0..8, so the cast to `u8` is exact |
| Cells.CountRow | src/conway.rs:143-158 | one row of the scan adds exactly that row's live in-grid cells to the total |
| Cells.ScanStep | src/conway.rs:144-156 | one scan position is counted and pushed iff it is a live cell inside the grid |
| Cells.ScanCoordsLength | src/conway.rs:171-188 | the scan pushes as many positions as it counts |
| Cells.ScanCoordsSound | src/conway.rs:171-188 | only live in-grid positions of the 3×3 block are pushed |
| Cells.ScanCoordsOrdered | src/conway.rs:171-188 | positions are pushed in strictly ascending row, then column, order |
| Cells.ScanCoordsComplete | src/conway.rs:171-188 | every live in-grid position of the block is pushed |
| Cells.NeighborCoords | src/conway.rs:164-190 | every listed position is a live in-grid cell of the 3×3 block |
| Cells.NeighborCoordsExact | src/conway.rs:164-190 | a position is listed iff it is a live in-grid cell of the block, and the list is strictly ascending in scan order |
| Cells.NeighborCoordsCount | src/conway.rs:99-100 | the list is as long as the Moore count plus one for a live centre, and exactly the Moore count for the Dead centre `step` asks about |
| Cells.NeighborsCoords | src/conway.rs:164-190 | the pushed vector equals the ordered list of live in-grid block positions |
| Cells.CollectRow | src/conway.rs:172-187 | one row of the scan appends exactly that row's live in-grid positions, in column order |
| Generation.BranchOf | src/conway.rs:93-124 | a cell survives iff it is Alive with 2 or 3 neighbours, is born iff it is Dead with exactly 3, and fades otherwise |
| Generation.Decayed | src/conway.rs:112-122 | red, green and blue are kept; alpha never increases, reaches 0 iff it was at most `decay`, and otherwise drops by exactly `decay`, never wrapping |
| Generation.Opaque | src/conway.rs:107 | the blended colour is kept with alpha forced to 255 |
| Generation.BlendFold | src/conway.rs:101-104 | defines the left fold of `blend` over a list of pixels from a start colour; its loop order is `BlendFoldSnoc` |
| Generation.BlendFoldSnoc | src/conway.rs:101-104 | blending one more pixel onto the running colour extends the left fold by that pixel |
| Generation.PixelsAt | src/conway.rs:103 | the colours read are the old image's pixels at the listed coordinates, in order |
| Generation.BirthPixel | src/conway.rs:100-107 | a newborn's colour is the fold of `blend` over its live neighbours' old pixels, and its alpha is 255 |
| Generation.NextCell | src/conway.rs:93-110 | a cell is Alive next iff it is Alive with 2 or 3 neighbours or Dead with exactly 3, counted on the old grid |
| Generation.NextPixel | src/conway.rs:93-123 | a survivor keeps its old pixel, a newborn is opaque, and every cell Dead next has its old pixel decayed |
| Generation.NextGrid | src/conway.rs:87-110 | the next grid has the old grid's dimensions |
| Generation.NextRaster | src/conway.rs:86-124 | the next raster has the old raster's dimensions |
| Generation.LifeRule | src/conway.rs:87-110 | a cell is Alive next iff it was Alive with 2 or 3 neighbours or Dead with exactly 3, counted on the old grid |
| Generation.SurvivorKeepsPixel | src/conway.rs:95-97 | a surviving cell keeps its old pixel unchanged |
| Generation.BirthBlendsThreeNeighbours | src/conway.rs:99-109 | a newborn's pixel is the blend, from transparent black, of its three live neighbours' old pixels in scan order, with alpha 255 |
| Generation.OthersFade | src/conway.rs:112-122 | every other cell is Dead next, keeps its colour, and its alpha becomes `a - decay`, or 0 when `a < decay` |
| Generation.BirthReadsOnlyNeighbours | src/conway.rs:100-103 | a birth reads the old image only at its live neighbours |
| Generation.DeadGridFades | src/conway.rs:80-132 | an all-Dead grid stays all Dead and every pixel fades by the same rule |
| Generation.LoneCellDies | src/conway.rs:87-124 | a 3×3 grid whose only live cell is the centre is all Dead after one step |
| Generation.TopRowNeighbours | src/conway.rs:171-188 | below the middle of a live top row the cell is Dead with 3 neighbours, listed left to right |
| Generation.TopRowBirth | src/conway.rs:99-109 | below the middle of a live top row a cell is born, coloured by blending the three top pixels left to right and made opaque |
| Generation.BlendCoords | src/conway.rs:101-104 | the loop's colour is the left fold of `blend` over the old pixels at the coordinates, in order |
| Generation.StepCell | src/conway.rs:91-124 | one cell's arm writes its next state and its next pixel and changes no other pixel |
| Generation.Step | src/conway.rs:80-132 | the new universe is a fresh buffer of the same size whose grid and raster are the next generation, computed from the old grid and the old raster alone |
| Lib.MapOntoWhitespace | src/lib.rs:22-95 | Light and Dark succeed iff every pixel is in bucket 0 or 1; the other modes succeed iff every index has a palette colour; the output has the input's dimensions |
| Lib.LightDarkComplement | src/lib.rs:46-78 | Light paints bucket 0 white and keeps bucket 1's colour; Dark does the reverse |
| Lib.StrayBucketAborts | src/lib.rs:54-57 | in Light or Dark mode, a single pixel outside buckets 0 and 1 aborts the mapping |
| Seeding.RandomCells | src/conway.rs:43-50 | the random seeding grid has the image's dimensions |
| Seeding.ThresholdCells | src/conway.rs:192-232 | the luminance seeding succeeds iff the mode is Light or Dark and every pixel is in bucket 0 or 1; the grid has the image's dimensions |
| Seeding.SeedCells | src/conway.rs:41-54 | a successful seeding has the image's dimensions |
| Seeding.RandomAliveAreDraws | src/conway.rs:43-50 | the live cells are exactly the drawn positions, hence at most `width * height` of them |
| Seeding.ThresholdRule | src/conway.rs:203-226 | in Light mode a cell is Alive iff its pixel is in bucket 1, in Dark mode iff in bucket 0; any other index aborts |
| Seeding.SeededCellsKeepColour | src/conway.rs:203-226 | a cell seeded Alive is exactly a pixel that keeps its colour in `map_onto_whitespace`; a Dead one is painted white |
| Seeding.RandomSeed | src/conway.rs:43-50 | after the loop over the draws the grid is the random seeding of those draws |
| Seeding.MapOntoCells | src/conway.rs:192-232 | the loop returns the luminance seeding, aborting on the first stray index or an unsupported mode |
| Life.Evolve | src/conway.rs:69-75 | every generation keeps the grid and raster dimensions |
| Life.Frames | src/conway.rs:62-75 | the frames pushed after `g` generations number `5 + g` |
| Life.FramesShape | src/conway.rs:62-75 | there are `5 + generations` frames; the first five are the starting image, frame `5 + k` is the raster after `k + 1` steps, and all share the image's size |
| Life.BeginLife | src/conway.rs:29-78 | the run succeeds iff the seeding does, and then returns exactly the frames of the seeded evolution |
| Pixelate.RowSum | src/lib.rs:136-143 | defines one channel summed over part of a pixel row, in unbounded integers |
| Pixelate.BlockSum | src/lib.rs:135-143 | defines one channel summed over a block, row after row, in unbounded integers: the accumulator without wrap-around |
| Pixelate.RowSumWithin | src/lib.rs:136-143 | a row sum lies between `lo * n` and `hi * n` when every pixel's channel lies between `lo` and `hi` |
| Pixelate.BlockSumWithin | src/lib.rs:136-143 | a block sum lies between `lo` and `hi` times the pixel count when every pixel's channel does |
| Pixelate.ChannelAverage | src/lib.rs:145 | the output channel is the floor of the block sum over the block area, and it fits in a byte |
| Pixelate.BlockAverage | src/lib.rs:145-150 | each channel of the output pixel is its channel's block average |
| Pixelate.BlockFits | src/lib.rs:108-132 | the block read for output pixel `(x, y)` lies inside the source: `x*sw + sw <= width`, `y*sw + sw <= height` |
| Pixelate.BlockInRaster | src/lib.rs:132 | the block side is positive and the block lies in the raster |
| Pixelate.Pixelated | src/lib.rs:125-157 | the output is `output_width` × `height / sw` |
| Pixelate.AverageWithinBlock | src/lib.rs:135-145 | each output channel lies between the block's minimum and maximum for that channel |
| Pixelate.UniformBlock | src/lib.rs:135-150 | a block of one colour becomes that colour |
| Pixelate.PixelatedPixel | src/lib.rs:129-150 | output pixel `(x, y)` is the average of the block at `(x*sw, y*sw)`, which lies inside the source |
| Pixelate.ChannelAverageIsQuotient | src/lib.rs:145 | the accumulator divided by `sub_image_area` is the channel average |
| Pixelate.SumBlock | src/lib.rs:135-143 | the four accumulators hold the block's channel sums |
| Pixelate.AverageBlock | src/lib.rs:135-150 | one output pixel is the block average |
| Pixelate.PixelateRow | src/lib.rs:130-155 | one output row gets the block averages and no other row changes |
| Pixelate.Pixelate | src/lib.rs:98-165 | aborts iff `output_width` is 0 or exceeds the width; otherwise the output is the pixelated image |
| Pixelate.WrappingRowSum | src/lib.rs:136-143 | the `u32` row accumulator as written, each `+=` wrapping modulo 2^32; after at least one addition it is below 2^32 |
| Pixelate.WrappingBlockSum | src/lib.rs:135-143 | the `u32` block accumulator as written; it is always below 2^32 |
| Pixelate.WrappingChannelAverage | src/lib.rs:145 | the output channel as written is the true block sum reduced modulo 2^32, divided by the block area, cast to `u8` |
| Pixelate.WrappingRowSumIsMod | src/lib.rs:136-143 | the `u32` accumulator as written holds the true row sum modulo 2^32 |
| Pixelate.WrappingBlockSumIsMod | src/lib.rs:135-143 | the `u32` accumulator as written holds the true block sum modulo 2^32 |
| Pixelate.WhiteBlockWraps | src/lib.rs:135-145 | on a white 4105 × 4105 block the accumulator as written averages to 0, while the true average is 255 |
| Fit.PairsBelow | src/lib.rs:172-177 | defines `cm` once `x` has run through `2..n`: the pairs `(width/x, height/x)` of the common divisors, in push order |
| Fit.PairsMembership | src/lib.rs:172-177 | a pair is pushed iff it is `(width/x, height/x)` for some `x` in `2..n` dividing both |
| Fit.PairsAboveLaterQuotients | src/lib.rs:172-177 | every pair pushed so far has a larger first component than any later common divisor gives |
| Fit.PairsDescending | src/lib.rs:172 | the first components strictly decrease and are at least 2, because `x` ascends and stops below the width |
| Fit.PairsEmpty | src/lib.rs:180-182 | nothing is pushed iff no `x` in `2..width` divides both sides |
| Fit.Fit | src/lib.rs:168-189 | `None` iff no common divisor in `2..width` exists; otherwise a non-empty list holding exactly the pairs `(width/x, height/x)`, with strictly decreasing first components |

## Left out

- `src/main.rs` is not part of this model. That includes the command line, file and directory handling, GIF encoding, the demo functions, and its duplicate of `begin_life`.
- Progress bars and console messages are not modelled.
- `Pixel::blend` is the parameter `blend`. Its floating-point compositing is not modelled, so the lemmas are about fold order, not colour values.
- `to_luma8` with `index_colors` and `BiLevel` is the parameter `bucket`. `ColorMap::lookup` is the parameter `lookup`.
- `DynamicImage` colour types and the conversions `to_rgba8`, `into_rgba8` and `to_rgb8` are not modelled. Images are RGBA buffers from the start, and `to_rgb8` drops alpha.
- Random seeding takes the positions the generator yields as the input `draws`. Their distribution is not modelled.
- `Life.BeginLife`: does not model the `u32` product `width * height` in `begin_life` wrapping for images of 2^32 pixels or more. The number of draws is the exact product.
- `Life.BeginLife`: `generations` is an unbounded `nat`, not a `u64`.
- `Cells.Neighbors`: requires width and height of at most 32767, so the `i16` arithmetic is exact. Beyond that the source misbehaves in two ways. A width of 32768 or more makes `width as i16` at `src/conway.rs:144` negative or truncated, so in-grid cells are skipped. At width 32768 every position is skipped, and a live centre's total of -1 casts to 255. A column or row of 32768 or more becomes a negative `i16`, and `as usize` at line 139 gives a huge index that panics.
- `Cells.NeighborsCoords`: requires the same `i16` bounds. Beyond them `width as i16` at `src/conway.rs:173` skips in-grid cells in the same way.
- `Generation.Step`: requires the same `i16` bounds, because it calls `neighbors` and `neighbors_coords`.
- `Life.BeginLife`: requires the `i16` bounds only when `generations > 0`. A run with no generations never calls `step`, and the model admits it for images of any size.
- `Pixelate.Pixelate`: the accumulators are unbounded integers, so the `u32` wrap-around of lines 135-143 is modelled apart (see Findings).
- `Pixelate.Pixelate`: the `u32` product `sub_image_width * sub_image_width`, which wraps once the block side reaches 65536, is not modelled.
- The `Mode` enum in `src/lib.rs` declares Light, Dark and Monochrome only. `src/conway.rs` matches on `Mode::Random`. The model follows the code that uses the mode and has all four.
- `pixelate` with a block side of 0 divides by zero at `src/lib.rs:112`, before the averaging division at line 145 is ever reached. The model reports `DivisionByZero` for that case.
- Every `panic!` and failed `expect` is an `Err` value: the stray palette index, an unsupported mode in `map_onto_cells`, and a missing palette colour.

## Findings

| source | as written | input that shows it | evidently intended | confidence | as-written member | corrected member |
|---|---|---|---|---|---|---|
| src/lib.rs:135-145 | the channel sums of a block accumulate in `u32`, which wraps once a sum reaches 2^32 | a white 4105 × 4105 image with `output_width` 1: the red sum is 255 · 4105² = 4297011375, which wraps to 2044079 and averages to 0 | each output channel is the floor of the block's true mean: 255 for a white block | not executed | Pixelate.WhiteBlockWraps | Pixelate.ChannelAverage |
