# Seam carving: a verified model of `SeamsCarver`

This project models the seam-carving engine of `SeamsCarver` in Dafny. The
engine narrows an image by removing vertical seams. A seam is an
8-connected path of one pixel per row. The cheapest seam is found with a
forward-energy dynamic program over a cost matrix. That matrix holds, per
pixel, the grey value, the accumulated energy and the parent direction
(L, V or R).

The engine works like this:

- The constructor checks the image size and the seam count, then picks an
  operation.
- `setGreyscale` stores each pixel's grey colour, packed as a Java int.
- `initCostMatrix` stores each pixel's energy: `Long.MIN_VALUE` where the
  mask is set, otherwise a gradient magnitude.
- `calcForwardCostMatrix` fills the table row by row with
  `calcRecursiveCost`. That method takes the first minimum of three
  candidates, breaking ties in the order L, V, R.
- `findSeam` starts from the first minimum of the last row and walks up
  through the parents.
- `updateCostMatrix` carves the seam out of the mask, the greyscale buffer
  and the cost matrix. It then recomputes the cells next to the seam.
- `findSeams` repeats find-and-update `numOfSeams` times.

Modules:

- `Wrappers` (`wrappers.dfy`): `Option` and `Result`.
- `ForwardCost` (`forward_cost.dfy`): the pure part.
  - It holds the three-way argmin, one step of the recurrence, the table
    it defines (`CostRow`), the first-minimum search and the backtrace.
  - It proves that a consistent table's backtraced seam is cheapest: no
    connected path over all rows has a lower forward cost.
- `Carving` (`seams_carver.dfy`): the class
  `SeamsCarver`.
  - The buffers are `array2` fields that its methods update in place.
  - Each method is proved against value-level functions of the buffers
    (`Row`, `Grid`, `Energies`, `Parents`, `Carved`, `Relaxed`,
    `RowRecomputed`).
- `SourceDefects` (`source_defects.dfy`): the code as written, where it
  reads outside its buffers. See "## Findings" below.

Modelling decisions:

- The source always indexes with `inWidth`. The model adds a field
  `width`: the number of columns still in use, which drops by one per seam
  removed. Every operation works within `width`: the neighbour choice
  (the code's column while it lies inside `width`, else the one on the
  other side), the edge guards of `calcRecursiveCost`, the search of `findMinCostIdx` and
  the shift loop. Columns at or beyond `width` are stale and never read.
- The source reads outside the image at the border columns and at
  `inWidth`. The model reads only inside it:
  - a border-column step gets no new-edge term;
  - `calcEnergy`'s neighbour falls back to an index that exists;
  - a seam in column 0 has no cell to its left to recompute;
  - a seam in the last column in use leaves no cell at the seam column to
    recompute: `RecomputeRow` then skips `calcRecursiveCost(y, seam[y])`,
    which the source calls on every row but the first (line 166), on a
    column that is stale after the carve.

  The first two are listed under "## Findings", together with the
  shift loop's read at `inWidth`. The last two are reached only after that
  shift loop, which as written always throws first.
- `calcRecursiveCost` adds the chosen value to the cell's current energy,
  and the model does the same. After `updateCostMatrix`, the increment is
  therefore added to an energy that already held an accumulated cost.
  `UpdateCostMatrix` states exactly which cells change and how. It does not
  claim that the result is the forward-cost table of the carved image,
  because it is not.
- `Long.MAX_VALUE` for a missing left or right candidate is `Infinite` in
  `ForwardCost.Cost`.
- `Long.MIN_VALUE` for a masked pixel is the constant `LongMin`.
- The helper `forEach` visits pixels in row-major order; the model's loops do
  the same.

## Model

| member | source | states |
|---|---|---|
| Carving.Configure | src/edu/cg/SeamsCarver.java:44-62 | Refuses exactly the images narrower or lower than 2 pixels. Otherwise refuses more seams than half the width. It succeeds if and only if neither check fails, and then it yields the count `abs(outWidth - inWidth)` and an operation: Increase if and only if the image widens, Reduce if and only if it narrows. |
| Carving.NewSeamsCarver | src/edu/cg/SeamsCarver.java:44-68 | Fails with the constructor's error exactly when the checks fail. Otherwise it returns a fresh, valid carver with the selected seam count and operation and with nothing computed yet. |
| Carving.SeamsCarver.constructor | src/edu/cg/SeamsCarver.java:44-68 | Stores the image, the sizes and the mask. Sets the seam count and the operation from the checks. Leaves both buffers unset. |
| Carving.SeamsCarver.Resize | src/edu/cg/SeamsCarver.java:70-72 | Runs the selected operation. Widening fails with `Unimplemented("increaseImageWidth")` and changes nothing. Equal widths return the working image and change nothing. Narrowing returns the output-sized blank image and leaves `outWidth` columns. It also yields the seams `Reduce` found, with `Reduce`'s guarantees on them and the mask carved by all of them. |
| Carving.SeamsCarver.Reduce | src/edu/cg/SeamsCarver.java:74-84 | Returns the blank `inWidth - numOfSeams` by `inHeight` image and the seams. Seam `k` is a path through the width left after `k` removals. The first seam is a cheapest seam of the original image under the forward-energy cost of its greyscale values and its energies. The mask is the original mask with the seams carved out one after another (`CarvedBySeams`). |
| Carving.SeamsCarver.ComputeCostTable | src/edu/cg/SeamsCarver.java:77-79 | After `setGreyscale`, `initCostMatrix` and `calcForwardCostMatrix`, the greyscale buffer is that of the image. Every parent fits the width. Every seam backtraced from a first minimum of the last row is cheapest with respect to the image's energies. |
| Carving.SeamsCarver.CostTableSeams | src/edu/cg/SeamsCarver.java:195-211 | On a matrix holding the forward-cost table of energies `e`, every seam `findSeam` can pick is a cheapest seam for `e`. |
| Carving.GreyLevel | src/edu/cg/SeamsCarver.java:119-120 | The grey level is the truncated mean of the three channels. |
| Carving.PackRoundTrip | src/edu/cg/SeamsCarver.java:119-122 | A colour packed as `new Color(r, g, b).getRGB()` decodes to alpha 255 and the channels `r`, `g`, `b`. |
| Carving.GreyOfIsOpaqueGrey | src/edu/cg/SeamsCarver.java:119-122 | A stored greyscale value is an opaque grey of the pixel's grey level. |
| Carving.GreyDifference | src/edu/cg/SeamsCarver.java:179-180 | The differences `calcEnergy` takes between stored greyscale values are 65793 times the differences of grey levels. |
| Carving.GreyImage | src/edu/cg/SeamsCarver.java:115-126 | The greyscale buffer of an image has its shape and holds each pixel's packed grey colour. |
| Carving.SeamsCarver.SetGreyscale | src/edu/cg/SeamsCarver.java:115-126 | Installs a fresh buffer equal to `GreyImage` of the working image. Nothing else changes. |
| Carving.NeighbourAsWritten | src/edu/cg/SeamsCarver.java:171-172 | The neighbour index as the code computes it: always one step away, the next index exactly when the index is below `n - 2`. It need not lie inside `[0, n)`. |
| Carving.Neighbour | src/edu/cg/SeamsCarver.java:171-172 | The neighbour index is inside the dimension and at most one step away. Measured against the same size `n`, it is the index the code picks whenever that index lies in `[0, n)`. It differs from the pixel itself if and only if the dimension has 2 or more pixels. |
| Carving.SeamsCarver.Gradient | src/edu/cg/SeamsCarver.java:174-180 | `Long.MIN_VALUE` if and only if the pixel is masked. Otherwise the magnitude of the differences to the horizontal and vertical neighbours. |
| Carving.NeighbourWithin | src/edu/cg/SeamsCarver.java:171 | The horizontal neighbour for a current width `w` of buffers `n` wide. It is inside `w` and at most one step away. It is the index the code picks against `n` whenever that index lies in `[0, w)`. It differs from the pixel itself if and only if `w` is 2 or more. At the full width it is `Neighbour`. |
| Carving.SeamsCarver.CalcEnergy | src/edu/cg/SeamsCarver.java:170-182 | Is `Long.MIN_VALUE` if and only if the pixel is masked, and non-negative otherwise. An unmasked pixel gets the magnitude of its grey differences to its vertical neighbour and to its horizontal neighbour `NeighbourWithin(x, inWidth, width)`. That is the column the code picks whenever it lies within the current width. |
| Carving.SeamsCarver.InitialPixel | src/edu/cg/SeamsCarver.java:136 | A new cost cell has the pixel's grey value and no parent. |
| Carving.SeamsCarver.ImageEnergies | src/edu/cg/SeamsCarver.java:170-182 | The energy grid of a mask and a greyscale buffer: every pixel's `calcEnergy` value. |
| Carving.SeamsCarver.EnergyMatrix | src/edu/cg/SeamsCarver.java:130-136 | Returns a fresh matrix of the image's size whose every cell is the pixel's initial cell. |
| Carving.SeamsCarver.InitCostMatrix | src/edu/cg/SeamsCarver.java:128-138 | Computes the greyscale buffer if it is missing and keeps it if present. Installs a fresh matrix of initial cells whose energies are `ImageEnergies` of the mask and the greyscale buffer. |
| ForwardCost.PathByMinimum | src/edu/cg/SeamsCarver.java:108-113 | Returns L if and only if `a` is at most `b` and `c`. Returns V if and only if `a` exceeds `b` and `b` is at most `c`. Returns R if and only if both exceed `c`. |
| ForwardCost.PathByMinimumIsFirstArgmin | src/edu/cg/SeamsCarver.java:108-113 | The chosen argument is a minimum of the three, and every earlier direction in L, V, R is strictly more costly. |
| ForwardCost.ForwardStep | src/edu/cg/SeamsCarver.java:227-260 | The parent chosen for a cell points to a column inside the width. |
| ForwardCost.ForwardStepIsFirstArgmin | src/edu/cg/SeamsCarver.java:227-260 | The step never picks L in column 0 or R in the last column. Its value is its own candidate and at most every present candidate. Every earlier direction is strictly more costly. |
| ForwardCost.ForwardStepLocal | src/edu/cg/SeamsCarver.java:231-249 | A step reads only the first `w` costs of the row above. |
| Carving.SeamsCarver.RecursiveStep | src/edu/cg/SeamsCarver.java:228-255 | The direction and value the code computes from the three candidates equal `ForwardStep` of the row above and the two grey rows. |
| Carving.RelaxedCell | src/edu/cg/SeamsCarver.java:258-259 | Relaxing a cell keeps its grey value and gives it a parent that fits the width. |
| Carving.Relaxed | src/edu/cg/SeamsCarver.java:258-259 | Relaxing column `x` of a row changes that cell only. |
| Carving.SeamsCarver.CalcRecursiveCost | src/edu/cg/SeamsCarver.java:227-260 | Row `y` becomes `Relaxed` at `x`: the step's value is added to the cell's energy and its direction becomes the parent. Every other row is unchanged. |
| Carving.RelaxedPrefix | src/edu/cg/SeamsCarver.java:141-146 | After the first `k` cells of a row are relaxed in turn, exactly those cells are relaxed from the original row. |
| Carving.SeamsCarver.CalcCostRow | src/edu/cg/SeamsCarver.java:141-146 | Every cell of row `y` within the width gets its step from the row above as it was, added to its energy, and that step's parent. Nothing else in the matrix changes. |
| ForwardCost.CostRow | src/edu/cg/SeamsCarver.java:140-147 | The reference table: row 0 is the raw energy row, and every row has exactly `w` cells. |
| ForwardCost.CostRowAt | src/edu/cg/SeamsCarver.java:140-147 | A table cell below row 0 is its raw energy plus the value of its step over the table row above. |
| ForwardCost.TablePrefixStep | src/edu/cg/SeamsCarver.java:140-147 | Filling row `y` from the kept rows above extends a table prefix by one row. |
| ForwardCost.TableIsCostRow | src/edu/cg/SeamsCarver.java:140-147 | The table agrees row by row with the reference `CostRow` and its parents with `TableParent`. |
| ForwardCost.TableCellConsistent | src/edu/cg/SeamsCarver.java:227-260 | Every table cell obeys the recurrence. Its parent fits, its cost is reached through its parent, and no direction is cheaper. |
| ForwardCost.TableIsConsistent | src/edu/cg/SeamsCarver.java:140-147 | The table solves the forward-energy recurrence everywhere within the width. |
| Carving.SeamsCarver.CalcForwardCostMatrix | src/edu/cg/SeamsCarver.java:140-147 | Afterwards the matrix is the forward-cost table of the energies it held before, with the table's parents. Row 0, the stale columns and all grey values are unchanged, and every parent fits the width. |
| ForwardCost.FindMinCostIdx | src/edu/cg/SeamsCarver.java:213-225 | Returns the index of the first occurrence of the minimum. |
| ForwardCost.Backtrace | src/edu/cg/SeamsCarver.java:195-211 | The walk has one index per row and ends at `idx`. It is a path inside the width, and each row's index is the row below's index moved by its stored parent. |
| Carving.SeamsCarver.FindSeam | src/edu/cg/SeamsCarver.java:195-211 | The seam has one column per row and is a path inside the width. It ends at the first minimum of the last row's energies, and it is the backtrace through the stored parents from there. The ghost results are that row and those parents, bundled as `FoundIn`. |
| ForwardCost.ConsistentIsLowerBound | src/edu/cg/SeamsCarver.java:227-260 | A consistent cost entry is at most the forward cost of any path ending there. |
| ForwardCost.FollowingPathRealises | src/edu/cg/SeamsCarver.java:195-211 | A path that follows the stored parents costs exactly the table entry at its end. |
| ForwardCost.BacktraceIsCheapest | src/edu/cg/SeamsCarver.java:195-211 | The seam backtraced from the first minimum of a consistent table's last row costs no more than any path over all rows. |
| ForwardCost.TableSeamIsCheapest | src/edu/cg/SeamsCarver.java:195-211 | On the forward-cost table, the backtraced seam costs no more than a given path over all rows. |
| ForwardCost.TableSeamIsCheapestSeam | src/edu/cg/SeamsCarver.java:195-211 | On the forward-cost table, the backtraced seam is a cheapest seam. |
| ForwardCost.TableSeamsAreCheapest | src/edu/cg/SeamsCarver.java:195-211 | On the forward-cost table, every parent fits and every seam backtraced from a first minimum of the last row is cheapest. |
| Carving.RemoveColumn | src/edu/cg/SeamsCarver.java:153-157 | Carving column `s` out of the first `w` cells leaves `w - 1` cells. Those left of `s` stay in place, and the others come from one column to the right. |
| Carving.CarvedRemovesColumn | src/edu/cg/SeamsCarver.java:153-157 | A carved buffer row is the row without column `s` in its first `n` cells, and the row itself beyond them. |
| Carving.RemoveColumnLosesOne | src/edu/cg/SeamsCarver.java:153-157 | Carving out a column loses exactly that column's value: the multiset of the rest plus that value is the multiset of the row. |
| Carving.SeamsCarver.ShiftRow | src/edu/cg/SeamsCarver.java:153-157 | The shift loop carves column `s` out of row `y` of the mask, the greyscale buffer and the cost matrix. Every other row is unchanged. |
| Carving.SeamsCarver.CarveCostRow | src/edu/cg/SeamsCarver.java:153-161 | Every cell of the carved cost row keeps the parent and grey value of the cell it came from. Every cell other than the one left of the seam is that cell. The left cell's horizontal neighbour is `NeighbourWithin` against `inWidth`. |
| Carving.SeamsCarver.CarveRow | src/edu/cg/SeamsCarver.java:151-161 | Row `y` of the mask and the greyscale buffer is carved. Row `y` of the cost matrix is `CarveCostRow`, with the left cell's energy recomputed by `calcEnergy`. Other rows are unchanged. |
| Carving.SeamsCarver.ShiftOut | src/edu/cg/SeamsCarver.java:151-161 | Every row is carved at its seam column. Each left cell's energy sees the rows above already carved and the rows below not yet. |
| Carving.SeamsCarver.CarvedUpToStep | src/edu/cg/SeamsCarver.java:151-161 | Carving row `y`, with its left cell re-energised against the current buffers, extends buffers carved up to row `y` by one row. |
| Carving.SeamsCarver.CarveNextRow | src/edu/cg/SeamsCarver.java:151-161 | One pass of the first loop: buffers carved up to row `y` become carved up to row `y + 1`. |
| Carving.RelaxedTwiceRecomputes | src/edu/cg/SeamsCarver.java:164-166 | Relaxing the cell left of the seam and then the cell at the seam, where each exists, is the row recomputation. |
| Carving.SeamsCarver.RecomputeRow | src/edu/cg/SeamsCarver.java:164-166 | Row `y` is recomputed around the seam column from the row above. Every other row is unchanged. |
| Carving.RowsRecomputedStep | src/edu/cg/SeamsCarver.java:163-167 | Recomputing row `y` from the current row above extends rows `1 .. y - 1` recomputed by one row. |
| Carving.SeamsCarver.Recompute | src/edu/cg/SeamsCarver.java:163-167 | Row 0 is unchanged. Every later row is recomputed around its seam column from the row above it after that row's own recomputation. |
| Carving.RecomputedParentsFit | src/edu/cg/SeamsCarver.java:149-167 | Parents that fitted the old width still fit the reduced width once the row is carved and recomputed. |
| Carving.SeamsCarver.UpdateCostMatrix | src/edu/cg/SeamsCarver.java:149-168 | The width drops by one. The mask and greyscale rows are carved at the seam. Cost row 0 is carved, and every later cost row is carved and then recomputed around the seam. Parents that fitted before still fit. |
| Carving.SeamsFitSnoc | src/edu/cg/SeamsCarver.java:186-189 | Appending a path through the width left after the seams so far keeps every seam fitting its own width. |
| Carving.CarvedRows | src/edu/cg/SeamsCarver.java:151-158 | Carving a seam out of a grid carves each row at that row's seam column and keeps the number of rows. |
| Carving.CarvedBySeams | src/edu/cg/SeamsCarver.java:184-193 | A grid with seams carved out one after another, each within the width left by those before it, keeps its shape. |
| Carving.CarvedBySeamsSnoc | src/edu/cg/SeamsCarver.java:186-190 | Carving one more seam, a path through the width that is left, out of the grid carved by the seams so far gives the grid carved by all of them. |
| Carving.SeamsFoundSnoc | src/edu/cg/SeamsCarver.java:186-190 | A seam found in a last row and parent table (`FoundIn`: the backtrace from a first minimum of that last row) extends a list of seams each found in its own last row and table. |
| Carving.RoundsSnoc | src/edu/cg/SeamsCarver.java:186-190 | One more round keeps the bookkeeping of `findSeams`: every seam found in its own last row and table, mask and greyscale carved by all seams so far. The first round's last row and parent table stay first. |
| Carving.FirstSeamIsCheapest | src/edu/cg/SeamsCarver.java:184-211 | If the first round's table makes every backtrace from a first minimum cheapest, the first seam found is a cheapest seam. |
| Carving.SeamsCarver.RemoveSeam | src/edu/cg/SeamsCarver.java:186-190 | One round of `findSeams` removes the seam `findSeam` picks: a path through the old width, ending at the first minimum of the last row, and the backtrace through the stored parents from there. Afterwards the mask and greyscale rows are carved at that seam, the width drops by one and parents keep fitting. |
| Carving.SeamsCarver.Round | src/edu/cg/SeamsCarver.java:186-190 | One pass of `findSeams`'s loop: the seam removed is the backtrace from a first minimum of the last row, in the parents, of the matrix on entry to the pass. The mask and greyscale buffer are carved by all seams so far. The new cost matrix is stated only as having parents that fit the new width. |
| Carving.SeamsCarver.FindSeamsOnTable | src/edu/cg/SeamsCarver.java:81 | `findSeams` as `reduceImageWidth` calls it. If every backtrace from a first minimum of the matrix is cheapest for `e` and `g`, so is the first seam returned. The seams fit, the mask and greyscale buffer end carved by them, and the width drops by `numOfSeams`. The final cost matrix is not stated. |
| Carving.SeamsCarver.FindSeams | src/edu/cg/SeamsCarver.java:184-193 | Returns `numOfSeams` seams. Seam `k` is a path through the width left after `k` removals. Seam 0 is the backtrace from a first minimum of the last row of the matrix on entry, in its parents. For `k` ≥ 1 only the shape is stated: the last row and parents it is backtraced from are not tied to the state. The mask and greyscale buffer end carved by all seams in order, and the width drops by `numOfSeams`. |
| Carving.Blank | src/edu/cg/ImageProcessor.java:78-80 | The output-sized image is all black with the requested shape. |
| SourceDefects.NeighbourAsWrittenOutside | src/edu/cg/SeamsCarver.java:171-172 | The neighbour as written leaves the image exactly at index 0 of a dimension shorter than 3. |
| SourceDefects.NeighbourAsWrittenPassesWidth | src/edu/cg/SeamsCarver.java:171 | Measured against `inWidth`, the neighbour of the last column of a current image at least two columns narrower than `inWidth` is the first column outside it. The corrected neighbour `NeighbourWithin` stays inside and is the column on the other side. |
| SourceDefects.RecursiveCostAsWritten | src/edu/cg/SeamsCarver.java:227-260 | As written, the step throws if and only if `x` is the first or the last column. It throws at index -1 or at `inWidth`. |
| SourceDefects.ForwardCostAsWrittenThrows | src/edu/cg/SeamsCarver.java:232-233 | On every row of at least 2 cells, column 0 throws at index -1 and the last column throws at `inWidth`. So `calcForwardCostMatrix` throws on every accepted image on which `initCostMatrix` returns. |
| SourceDefects.ForwardStepAgreesInside | src/edu/cg/SeamsCarver.java:227-260 | Wherever the code as written does not throw, `ForwardStep` makes the same choice with the same value. |
| SourceDefects.ShiftAsWritten | src/edu/cg/SeamsCarver.java:153-157 | The shift loop as written throws at index `inWidth`. By then the row is already the carved row. |

## Left out

- The extended `ImageProcessor` class is not part of this model, apart from the blank output image and the copy of the working image that `resize` returns. That covers the logger, `forEach`, `RGBWeights` and the `BufferedImage` accessors.
- `increaseImageWidth` is modelled as the exception it throws. `showSeams` and `getMaskAfterSeamCarving` are not modelled: they only throw `UnimplementedMethodException`.
- `reduceImageWidth` discards the seams and returns the blank output image unfilled, since it never removes the seams from the image. The model returns the same blank image and, beside it, the seams.
- Carving.SeamsCarver.CalcEnergy: the formula `(long) Math.sqrt((1 << deltaX) + (1 << deltaY))` is the abstract parameter `magnitude`. The model does not capture Java's masking of the shift distance to 5 bits, the floating-point square root or the truncation to `long`.
- 64-bit `long` and 32-bit `int` arithmetic are unbounded integers. Adding to `Long.MIN_VALUE` or to an accumulated cost can wrap in Java, and the model does not capture that overflow.
- The source shares `EnergyPixel` objects: `costMatrix[y][x] = costMatrix[y][x + 1]` copies a reference, and `setEnergy`/`setParent` mutate through it. The model copies cell values instead. The only cells aliased after a shift are the last column in use and the stale columns beyond it. The model never reads stale columns, so its reads do not differ.
- `java.awt.Color` decoding is modelled on packed ints, for `Color(int).getRed()` and friends and `new Color(r, g, b).getRGB()`. The working image is a grid of channel triples (`Rgb`).
- Carving.SeamsCarver.FindSeams: seams after the first are not claimed to be cheapest. After `updateCostMatrix` the matrix is recomputed only next to the seam, so it is no longer the forward-cost table of the carved image. Only seam 0 is tied to the matrix it is found in. For seams `k` ≥ 1, `SeamsFound` names a last row and a parent table, but they are not tied to the matrix the rounds leave. So those seams are stated only as paths through the width left. The cost matrix `findSeams` leaves is stated only as having parents that fit the width.
- Carving.SeamsCarver.RemoveSeam: does not restate the new cost rows. They are stated by `UpdateCostMatrix`, which it calls.
- Carving.SeamsCarver.Round: the cost matrix after the pass is stated only as having parents that fit the new width (`ParentsInside`). Its rows are those `UpdateCostMatrix` states, and restating them through `RemoveSeam` made the pass too costly to verify.
- Carving.SeamsCarver.FindSeamsOnTable: the cost matrix it leaves is not stated, for the reason given for `Round`. The mask and the greyscale buffer are.
- Carving.SeamsCarver.Reduce: optimality is stated for the first seam only. Later seams are found on a matrix that `updateCostMatrix` recomputes only next to the seam, and energies there already hold accumulated costs. So only their shape is stated: each is a path through the width that is left.
- The model searches only the first `width` cells of the last row for the minimum. `findMinCostIdx` is passed the whole row of `inWidth` cells, stale columns included. This is reached only after the shift loop returns, which it never does as written (see Findings).

## Findings

| source | as written | input that shows it | evidently intended | confidence | as-written member | corrected member |
|---|---|---|---|---|---|---|
| src/edu/cg/SeamsCarver.java:171-172 | The neighbour is `x < inWidth - 2 ? x + 1 : x - 1`, and likewise for `y`. | An image 2 pixels wide, which the constructor accepts: an unmasked pixel (y, 0) gets neighbour column -1, and `greyscale[y][-1]` throws (a masked pixel returns `Long.MIN_VALUE` first, lines 175-176). The same holds for rows of an image 2 pixels high. | A neighbour index inside the image. | not executed | SourceDefects.NeighbourAsWrittenOutside | Carving.Neighbour |
| src/edu/cg/SeamsCarver.java:171 | The neighbour is measured against `inWidth` after seams have been removed. | A 6-pixel-wide image, at least 3 pixels high, whose second seam lies at column 4, the last column then in use: once it is carved, the cell left of it (column 3, now the last column in use) takes the stale column 4 as its neighbour. This is reached only once the earlier throws in `calcRecursiveCost` (lines 232-233) and in the shift loop (lines 154-157) are fixed. | The column the code picks while it lies inside the current width, and the column on the other side otherwise. | not executed | SourceDefects.NeighbourAsWrittenPassesWidth | Carving.NeighbourWithin |
| src/edu/cg/SeamsCarver.java:232-233 | The centre candidate reads `greyscale[y][x + 1]` and `greyscale[y][x - 1]` for every `x`. | Any accepted image on which `initCostMatrix` returns, for example every image at least 3 by 3 pixels (see Findings row 1): `calcForwardCostMatrix` calls `calcRecursiveCost(1, 0)` first, which reads index -1. Column `inWidth - 1` reads index `inWidth`. | The new-edge term only where both neighbours exist, 0 at the borders, as the left and right guards already do for their own terms. | not executed | SourceDefects.RecursiveCostAsWritten | ForwardCost.ForwardStep |
| src/edu/cg/SeamsCarver.java:153-157 | The shift loop runs `x` from `seam[y]` while `x < inWidth` and reads `[x + 1]`. | Any seam on the first call of `updateCostMatrix`: the step `x = inWidth - 1` reads index `inWidth`. This is reached only once the earlier throws are fixed: the one in `calcEnergy` (Findings row 1), during `initCostMatrix`, and the one in `calcRecursiveCost` (lines 232-233), during `calcForwardCostMatrix`. | A loop up to the last column still in use. | not executed | SourceDefects.ShiftAsWritten | Carving.SeamsCarver.ShiftRow |
