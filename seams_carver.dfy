/**
  The `SeamsCarver` object: its configuration, its three per-pixel buffers
  (mask, greyscale, cost matrix) and the operations that fill them, find a
  seam and remove it. The arithmetic of one cost cell lives in `ForwardCost`.
*/
module Carving {
  import opened Wrappers
  import opened ForwardCost

  /** `Long.MIN_VALUE`, the energy of a masked pixel. */
  const LongMin: int := -0x8000_0000_0000_0000

  /** One 8-bit colour channel. */
  type Channel = c: int | 0 <= c < 256

  /** A pixel of the working image, already split into channels. */
  datatype Rgb = Rgb(red: Channel, green: Channel, blue: Channel)

  /** `new Color(r, g, b).getRGB()`: opaque alpha over the three channels, as a signed 32-bit int. */
  function Pack(r: Channel, g: Channel, b: Channel): int {
    0xFF00_0000 + r * 0x1_0000 + g * 0x100 + b - 0x1_0000_0000
  }

  /** The 32-bit pattern of a signed int, as `Color(int)` sees it. */
  function Bits(v: int): nat {
    v % 0x1_0000_0000
  }

  function Alpha(v: int): nat { Bits(v) / 0x100_0000 }
  function Red(v: int): nat { Bits(v) / 0x1_0000 % 0x100 }
  function Green(v: int): nat { Bits(v) / 0x100 % 0x100 }
  function Blue(v: int): nat { Bits(v) % 0x100 }

  /** Decoding a packed colour gives back its channels and an opaque alpha. */
  lemma PackRoundTrip(r: Channel, g: Channel, b: Channel)
    ensures var v := Pack(r, g, b);
      Alpha(v) == 255 && Red(v) == r && Green(v) == g && Blue(v) == b
  {
    var low := r * 0x1_0000 + g * 0x100 + b;
    var v := Pack(r, g, b);
    assert 0 <= low < 0x100_0000;
    assert Bits(v) == 0xFF00_0000 + low;
    assert Bits(v) / 0x1_0000 == 0xFF00 + r;
    assert Bits(v) / 0x100 == 0xFF_0000 + r * 0x100 + g;
  }

  /** The grey level `setGreyscale` gives a pixel: the truncated mean of its channels. */
  function GreyLevel(p: Rgb): (level: Channel)
    ensures 3 * level <= p.red + p.green + p.blue < 3 * level + 3
  {
    (p.red + p.green + p.blue) / 3
  }

  /** The packed grey colour `setGreyscale` stores for a pixel. */
  function GreyOf(p: Rgb): int {
    var level := GreyLevel(p);
    Pack(level, level, level)
  }

  /** A stored greyscale value decodes to an opaque grey of the pixel's level. */
  lemma GreyOfIsOpaqueGrey(p: Rgb)
    ensures var v := GreyOf(p);
      Alpha(v) == 255 && Red(v) == GreyLevel(p) && Green(v) == GreyLevel(p) && Blue(v) == GreyLevel(p)
  {
    PackRoundTrip(GreyLevel(p), GreyLevel(p), GreyLevel(p));
  }

  /** Differences of stored greyscale values are 65793 times the differences of grey levels. */
  lemma GreyDifference(p: Rgb, q: Rgb)
    ensures GreyOf(p) - GreyOf(q) == 0x1_0101 * (GreyLevel(p) - GreyLevel(q))
  {
  }

  /** Why a carver cannot be built or cannot resize. */
  datatype Error = TooSmall | TooManySeams | Unimplemented(operation: string)

  /** The resize operation the constructor selects. */
  datatype ResizeOp = Increase | Reduce | Duplicate

  /**
    The constructor's checks and dispatch, in its order: the number of seams
    is the width difference; an image narrower or lower than 2 pixels is
    refused, then more seams than half the input width; otherwise the sign
    of the width difference picks the operation.
  */
  function Configure(inWidth: int, inHeight: int, outWidth: int): (r: Result<(nat, ResizeOp), Error>)
    ensures r == Failure(TooSmall) <==> inWidth < 2 || inHeight < 2
    ensures r == Failure(TooManySeams) <==> 2 <= inWidth && 2 <= inHeight && Abs(outWidth - inWidth) > inWidth / 2
    ensures r.Success? <==> 2 <= inWidth && 2 <= inHeight && Abs(outWidth - inWidth) <= inWidth / 2
    ensures r.Success? ==> r.value.0 == Abs(outWidth - inWidth) && 2 * r.value.0 <= inWidth
    ensures r.Success? ==> (r.value.1 == Increase <==> outWidth > inWidth) && (r.value.1 == Reduce <==> outWidth < inWidth)
    ensures r.Success? && r.value.1 == Reduce ==> 1 <= outWidth == inWidth - r.value.0
  {
    var numOfSeams := Abs(outWidth - inWidth);
    if inWidth < 2 || inHeight < 2 then Failure(TooSmall)
    else if numOfSeams > inWidth / 2 then Failure(TooManySeams)
    else if outWidth > inWidth then Success((numOfSeams, Increase))
    else if outWidth < inWidth then Success((numOfSeams, Reduce))
    else Success((numOfSeams, Duplicate))
  }

  /** `calcEnergy`'s neighbour index as written: the next index below `n - 2`, else the previous one. */
  function NeighbourAsWritten(i: int, n: int): (j: int)
    ensures j - i == 1 || j - i == -1
    ensures j == i + 1 <==> i < n - 2
  {
    if i < n - 2 then i + 1 else i - 1
  }

  /**
    The neighbour `calcEnergy` compares with: the index the code picks
    whenever that index exists, else the next index, else the index itself.
  */
  function Neighbour(i: nat, n: nat): (j: nat)
    requires i < n
    ensures j < n && -1 <= j - i <= 1
    ensures 0 <= NeighbourAsWritten(i, n) < n ==> j == NeighbourAsWritten(i, n)
    ensures 2 <= n <==> j != i
  {
    var j := NeighbourAsWritten(i, n);
    if 0 <= j < n then j else if i + 1 < n then i + 1 else i
  }

  /**
    `calcEnergy`'s horizontal neighbour once the image in use is `w` columns
    of buffers `n` wide: the index the code picks against `n` whenever that
    index is inside the width in use, else the neighbour within `w`.
  */
  function NeighbourWithin(i: nat, n: nat, w: nat): (j: nat)
    requires i < w <= n
    ensures j < w && -1 <= j - i <= 1
    ensures 0 <= NeighbourAsWritten(i, n) < w ==> j == NeighbourAsWritten(i, n)
    ensures 2 <= w <==> j != i
    ensures w == n ==> j == Neighbour(i, n)
  {
    var j := NeighbourAsWritten(i, n);
    if 0 <= j < w then j else Neighbour(i, w)
  }

  /** A cost matrix cell: the greyscale value, the accumulated energy and the parent direction (`null` is `None`). */
  datatype EnergyPixel = EnergyPixel(intensity: int, energy: int, parent: Option<Path>)

  /** `height` rows of `width` pixels each. */
  predicate IsImage(image: seq<seq<Rgb>>, width: nat, height: nat) {
    |image| == height && forall y :: 0 <= y < |image| ==> |image[y]| == width
  }

  /** The greyscale buffer `setGreyscale` fills for an image. */
  function GreyImage(image: seq<seq<Rgb>>): (grey: seq<seq<int>>)
    ensures |grey| == |image| && forall y :: 0 <= y < |image| ==> |grey[y]| == |image[y]|
    ensures forall y, x :: 0 <= y < |image| && 0 <= x < |image[y]| ==> grey[y][x] == GreyOf(image[y][x])
  {
    seq(|image|, y requires 0 <= y < |image| => seq(|image[y]|, x requires 0 <= x < |image[y]| => GreyOf(image[y][x])))
  }

  /** A new image of `height` rows of `width` pixels, all zero (black), as a fresh `BufferedImage` is. */
  function Blank(width: nat, height: nat): (image: seq<seq<Rgb>>)
    ensures IsImage(image, width, height)
    ensures forall y, x :: 0 <= y < height && 0 <= x < width ==> image[y][x] == Rgb(0, 0, 0)
  {
    seq(height, _ => seq(width, _ => Rgb(0, 0, 0)))
  }

  /**
    Builds a carver for `workingImage` (rows of `inWidth` pixels), refusing
    the sizes the constructor refuses. `magnitude` stands for the gradient
    formula of `calcEnergy`.
  */
  method NewSeamsCarver(workingImage: seq<seq<Rgb>>, inWidth: nat, outWidth: int, imageMask: array2<bool>, magnitude: (int, int) -> nat)
    returns (r: Result<SeamsCarver, Error>)
    requires IsImage(workingImage, inWidth, |workingImage|)
    requires imageMask.Length0 == |workingImage| && imageMask.Length1 == inWidth
    ensures var config := Configure(inWidth, |workingImage|, outWidth);
      && (r.Failure? <==> config.Failure?)
      && (r.Failure? ==> r.error == config.error)
      && (r.Success? ==> fresh(r.value) && r.value.Valid() && r.value.Fresh()
                         && r.value.numOfSeams == config.value.0 && r.value.op == config.value.1
                         && r.value.imageMask == imageMask && r.value.workingImage == workingImage)
  {
    var config := Configure(inWidth, |workingImage|, outWidth);
    if config.Failure? {
      return Failure(config.error);
    }
    var carver := new SeamsCarver(workingImage, inWidth, outWidth, imageMask, magnitude);
    return Success(carver);
  }

  /** Row `y` of a two-dimensional buffer. */
  function Row<T>(m: array2<T>, y: nat): (row: seq<T>)
    reads m
    requires y < m.Length0
    ensures |row| == m.Length1 && forall x :: 0 <= x < m.Length1 ==> row[x] == m[y, x]
  {
    seq(m.Length1, x requires 0 <= x < m.Length1 reads m => m[y, x])
  }

  /** A two-dimensional buffer, row by row. */
  function Grid<T>(m: array2<T>): (grid: seq<seq<T>>)
    reads m
    ensures |grid| == m.Length0 && forall y :: 0 <= y < m.Length0 ==> grid[y] == Row(m, y)
  {
    seq(m.Length0, y requires 0 <= y < m.Length0 reads m => Row(m, y))
  }

  /** Two grids with the same rows lengths and the same cells are equal. */
  lemma GridsEqual<T>(a: seq<seq<T>>, b: seq<seq<T>>)
    requires |a| == |b| && forall y :: 0 <= y < |a| ==> |a[y]| == |b[y]|
    requires forall y, x :: 0 <= y < |a| && 0 <= x < |a[y]| ==> a[y][x] == b[y][x]
    ensures a == b
  {
    forall y | 0 <= y < |a|
      ensures a[y] == b[y]
    {
      assert forall x :: 0 <= x < |a[y]| ==> a[y][x] == b[y][x];
    }
  }

  /** The energies of a row of cost cells. */
  function EnergiesOf(row: seq<EnergyPixel>): (energies: seq<int>)
    ensures |energies| == |row| && forall x :: 0 <= x < |row| ==> energies[x] == row[x].energy
  {
    seq(|row|, x requires 0 <= x < |row| => row[x].energy)
  }

  /** The parents of a row of cost cells. */
  function ParentsOf(row: seq<EnergyPixel>): (parents: seq<Option<Path>>)
    ensures |parents| == |row| && forall x :: 0 <= x < |row| ==> parents[x] == row[x].parent
  {
    seq(|row|, x requires 0 <= x < |row| => row[x].parent)
  }

  /** The energies of row `y` of a cost matrix. */
  function EnergyRowOf(m: array2<EnergyPixel>, y: nat): (row: seq<int>)
    reads m
    requires y < m.Length0
    ensures |row| == m.Length1 && forall x :: 0 <= x < m.Length1 ==> row[x] == m[y, x].energy
  {
    seq(m.Length1, x requires 0 <= x < m.Length1 reads m => m[y, x].energy)
  }

  /** The energies of a cost matrix, row by row. */
  function EnergyGrid(m: array2<EnergyPixel>): (grid: seq<seq<int>>)
    reads m
    ensures |grid| == m.Length0 && Shaped(grid, m.Length1)
    ensures forall y :: 0 <= y < m.Length0 ==> grid[y] == EnergyRowOf(m, y)
  {
    seq(m.Length0, y requires 0 <= y < m.Length0 reads m => EnergyRowOf(m, y))
  }

  /** The parents of row `y` of a cost matrix. */
  function ParentRowOf(m: array2<EnergyPixel>, y: nat): (row: seq<Option<Path>>)
    reads m
    requires y < m.Length0
    ensures |row| == m.Length1 && forall x :: 0 <= x < m.Length1 ==> row[x] == m[y, x].parent
  {
    seq(m.Length1, x requires 0 <= x < m.Length1 reads m => m[y, x].parent)
  }

  /** The energy and parent rows of a cost matrix are those of its cell rows. */
  lemma RowParts(m: array2<EnergyPixel>, y: nat)
    requires y < m.Length0
    ensures EnergyRowOf(m, y) == EnergiesOf(Row(m, y)) && ParentRowOf(m, y) == ParentsOf(Row(m, y))
  {
  }

  /** The parents of a cost matrix, row by row. */
  function ParentGrid(m: array2<EnergyPixel>): (grid: seq<seq<Option<Path>>>)
    reads m
    ensures |grid| == m.Length0 && Shaped(grid, m.Length1)
    ensures forall y :: 0 <= y < m.Length0 ==> grid[y] == ParentRowOf(m, y)
  {
    seq(m.Length0, y requires 0 <= y < m.Length0 reads m => ParentRowOf(m, y))
  }

  /**
    The column a cell of the first `n` columns comes from once column `s`
    of a row of `n + 1` has been removed: columns left of `s` stay, the
    others come from one to the right.
  */
  function Source(x: nat, s: nat, n: nat): (from: nat)
    ensures from == x || from == x + 1
    ensures x < n ==> (from == x + 1 <==> s <= x)
  {
    if s <= x < n then x + 1 else x
  }

  /** The first `w - 1` columns left after column `s` of the first `w` has been carved out. */
  function RemoveColumn<T>(row: seq<T>, s: nat, w: nat): (r: seq<T>)
    requires s < w <= |row|
    ensures |r| == w - 1
    ensures forall x :: 0 <= x < w - 1 ==> r[x] == row[Source(x, s, w - 1)]
  {
    row[..s] + row[s + 1..w]
  }

  /** A whole buffer row after column `s` of its first `n + 1` has been carved out; columns from `n` on keep their values. */
  function Carved<T>(row: seq<T>, s: nat, n: nat): (r: seq<T>)
    requires n < |row|
    ensures |r| == |row| && forall x :: 0 <= x < |row| ==> r[x] == row[Source(x, s, n)]
  {
    seq(|row|, x requires 0 <= x < |row| => row[Source(x, s, n)])
  }

  /** The carved row's first `n` columns are the row's first `n + 1` without column `s`; the rest is untouched. */
  lemma CarvedRemovesColumn<T>(row: seq<T>, s: nat, n: nat)
    requires s <= n < |row|
    ensures Carved(row, s, n)[..n] == RemoveColumn(row, s, n + 1)
    ensures Carved(row, s, n)[n..] == row[n..]
  {
  }

  /** Carving out a column loses exactly that column's value. */
  lemma RemoveColumnLosesOne<T>(row: seq<T>, s: nat, w: nat)
    requires s < w <= |row|
    ensures multiset(RemoveColumn(row, s, w)) + multiset{row[s]} == multiset(row[..w])
  {
    assert row[..w] == row[..s] + [row[s]] + row[s + 1..w];
  }

  /**
    A cost cell relaxed the way `calcRecursiveCost` does it for column `x`:
    the value of the first cheapest step from the energies `above` added to
    its energy, and that step's direction stored as its parent.
  */
  function RelaxedCell(cell: EnergyPixel, above: seq<int>, g: seq<int>, ga: seq<int>, x: nat, n: nat): (r: EnergyPixel)
    requires x < n <= |above| && n <= |g| && n <= |ga|
    ensures r.intensity == cell.intensity && r.parent.Some? && Fits(r.parent.value, x, n)
  {
    var st := ForwardStep(above, g, ga, x, n);
    cell.(energy := cell.energy + st.value, parent := Some(st.parent))
  }

  /** `row` with cell `x` relaxed. */
  function Relaxed(row: seq<EnergyPixel>, above: seq<int>, g: seq<int>, ga: seq<int>, x: nat, n: nat): (r: seq<EnergyPixel>)
    requires x < n <= |row| && n <= |above| && n <= |g| && n <= |ga|
    ensures |r| == |row| && r[x] == RelaxedCell(row[x], above, g, ga, x, n)
    ensures forall c :: 0 <= c < |row| && c != x ==> r[c] == row[c]
  {
    row[x := RelaxedCell(row[x], above, g, ga, x, n)]
  }

  /** `row` with its first `k` cells relaxed one after the other, left to right. */
  function RelaxedPrefix(row: seq<EnergyPixel>, above: seq<int>, g: seq<int>, ga: seq<int>, k: nat, n: nat): (r: seq<EnergyPixel>)
    requires k <= n <= |row| && n <= |above| && n <= |g| && n <= |ga|
    ensures |r| == |row|
    ensures forall c :: 0 <= c < |row| ==> r[c] == if c < k then RelaxedCell(row[c], above, g, ga, c, n) else row[c]
    decreases k
  {
    if k == 0 then row else Relaxed(RelaxedPrefix(row, above, g, ga, k - 1, n), above, g, ga, k - 1, n)
  }

  /**
    `row` is the cost row `before` after the second loop of
    `updateCostMatrix` has been through it, for a seam at column `s` of a
    width `n`: the cells just left of and at the seam (those inside the
    width) have taken the step `calcRecursiveCost` chooses from the energies
    `above` of the row above; every other cell is as it was.
  */
  ghost predicate RowRecomputed(row: seq<EnergyPixel>, before: seq<EnergyPixel>, above: seq<int>, g: seq<int>, ga: seq<int>, s: nat, n: nat) {
    && |row| == |before| && s <= n <= |before| && n <= |above| && n <= |g| && n <= |ga|
    && forall x :: 0 <= x < |row| ==>
      row[x] == if x + 1 == s || (x == s && s < n) then RelaxedCell(before[x], above, g, ga, x, n) else before[x]
  }

  /**
    Relaxing the cell left of the seam (when there is one) and then the cell
    at the seam (when it is inside the width) recomputes the row.
  */
  lemma RelaxedTwiceRecomputes(row: seq<EnergyPixel>, mid: seq<EnergyPixel>, before: seq<EnergyPixel>, above: seq<int>, g: seq<int>, ga: seq<int>, s: nat, n: nat)
    requires s <= n <= |before| && n <= |above| && n <= |g| && n <= |ga|
    requires mid == if 1 <= s then Relaxed(before, above, g, ga, s - 1, n) else before
    requires row == if s < n then Relaxed(mid, above, g, ga, s, n) else mid
    ensures RowRecomputed(row, before, above, g, ga, s, n)
  {
  }

  /**
    Rows `1 .. n - 1` of `rows` are the rows of `cost` recomputed around the
    seam, each from the energies of the row above it in `rows`.
  */
  ghost predicate RowsRecomputed(rows: seq<seq<EnergyPixel>>, cost: seq<seq<EnergyPixel>>, grey: seq<seq<int>>, seam: seq<int>, w: nat, n: nat)
    requires n <= |rows| == |cost| == |grey| == |seam|
  {
    forall r :: 1 <= r < n ==>
      0 <= seam[r] && RowRecomputed(rows[r], cost[r], EnergiesOf(rows[r - 1]), grey[r], grey[r - 1], seam[r], w)
  }

  /** Recomputing row `y` alone, from the row above as it stands, extends the recomputed rows by one. */
  lemma RowsRecomputedStep(rows: seq<seq<EnergyPixel>>, rows': seq<seq<EnergyPixel>>, cost: seq<seq<EnergyPixel>>, grey: seq<seq<int>>, seam: seq<int>, w: nat, y: nat)
    requires 1 <= y < |rows| == |rows'| == |cost| == |grey| == |seam| && 0 <= seam[y]
    requires RowsRecomputed(rows, cost, grey, seam, w, y) && rows[y] == cost[y]
    requires forall r :: 0 <= r < |rows| && r != y ==> rows'[r] == rows[r]
    requires RowRecomputed(rows'[y], rows[y], EnergiesOf(rows[y - 1]), grey[y], grey[y - 1], seam[y], w)
    ensures RowsRecomputed(rows', cost, grey, seam, w, y + 1)
  {
    forall r | 1 <= r < y + 1
      ensures 0 <= seam[r] && RowRecomputed(rows'[r], cost[r], EnergiesOf(rows'[r - 1]), grey[r], grey[r - 1], seam[r], w)
    {
      assert rows'[r - 1] == rows[r - 1];
    }
  }

  /** Seam `i` of `seams` is a path over `h` rows through the width `w - i` left after the `i` seams before it. */
  predicate SeamsFit(seams: seq<seq<int>>, h: nat, w: nat) {
    forall i :: 0 <= i < |seams| ==> i <= w && |seams[i]| == h && IsPath(seams[i], w - i)
  }

  lemma SeamsFitSnoc(seams: seq<seq<int>>, seam: seq<int>, h: nat, w: nat)
    requires SeamsFit(seams, h, w) && |seams| <= w && |seam| == h && IsPath(seam, w - |seams|)
    ensures SeamsFit(seams + [seam], h, w)
  {
    forall i | 0 <= i < |seams| + 1
      ensures i <= w && |(seams + [seam])[i]| == h && IsPath((seams + [seam])[i], w - i)
    {
      if i < |seams| {
        assert (seams + [seam])[i] == seams[i];
      }
    }
  }

  /** Every row `y` of `grid` with column `seam[y]` of its first `n + 1` carved out. */
  function CarvedRows<T>(grid: seq<seq<T>>, seam: seq<int>, n: nat): (r: seq<seq<T>>)
    requires |seam| == |grid| && forall y :: 0 <= y < |grid| ==> 0 <= seam[y] && n < |grid[y]|
    ensures |r| == |grid| && forall y :: 0 <= y < |grid| ==> r[y] == Carved(grid[y], seam[y], n)
  {
    seq(|grid|, y requires 0 <= y < |grid| => Carved(grid[y], seam[y], n))
  }

  /** A grid whose every row is the carved row of `before` is `CarvedRows(before, ..)`. */
  lemma RowsCarved<T>(now: seq<seq<T>>, before: seq<seq<T>>, seam: seq<int>, n: nat)
    requires |now| == |before| == |seam| && forall y :: 0 <= y < |before| ==> 0 <= seam[y] && n < |before[y]|
    requires forall y :: 0 <= y < |before| ==> now[y] == Carved(before[y], seam[y], n)
    ensures now == CarvedRows(before, seam, n)
  {
  }

  /**
    A buffer of width `w` after `seams` have been carved out one after the
    other, seam `k` from the first `w - k` columns, as `updateCostMatrix`
    shifts the mask and the greyscale buffer once per seam.
  */
  function CarvedBySeams<T>(grid: seq<seq<T>>, seams: seq<seq<int>>, w: nat): (r: seq<seq<T>>)
    requires Shaped(grid, w) && |seams| <= w && SeamsFit(seams, |grid|, w)
    ensures |r| == |grid| && forall y :: 0 <= y < |grid| ==> |r[y]| == |grid[y]|
    decreases |seams|
  {
    if seams == [] then grid
    else
      var k := |seams| - 1;
      assert SeamsFit(seams[..k], |grid|, w) by {
        forall i | 0 <= i < k
          ensures i <= w && |seams[..k][i]| == |grid| && IsPath(seams[..k][i], w - i)
        {
          assert seams[..k][i] == seams[i];
        }
      }
      var before := CarvedBySeams(grid, seams[..k], w);
      assert forall y :: 0 <= y < |grid| ==> 0 <= seams[k][y] < w - k;
      CarvedRows(before, seams[k], w - k - 1)
  }

  /** Carving one more seam out of a buffer already carved by `seams`. */
  lemma CarvedBySeamsSnoc<T>(grid: seq<seq<T>>, seams: seq<seq<int>>, seam: seq<int>, w: nat, before: seq<seq<T>>, after: seq<seq<T>>, n: nat)
    requires Shaped(grid, w) && 1 <= n == w - |seams| && SeamsFit(seams, |grid|, w)
    requires |seam| == |grid| && IsPath(seam, n)
    requires before == CarvedBySeams(grid, seams, w)
    requires after == CarvedRows(before, seam, n - 1)
    ensures SeamsFit(seams + [seam], |grid|, w)
    ensures after == CarvedBySeams(grid, seams + [seam], w)
  {
    SeamsFitSnoc(seams, seam, |grid|, w);
    assert (seams + [seam])[..|seams|] == seams;
  }

  /**
    `seam` is the one `findSeam` picks from a cost matrix of width `w`
    whose last row holds the energies `last` (within the width) and whose
    parents are `table`.
  */
  ghost predicate FoundIn(seam: seq<int>, last: seq<int>, table: seq<seq<Option<Path>>>, w: nat) {
    && 1 <= |seam| == |table| && |last| == w
    && Shaped(table, w) && ParentsFit(table, w)
    && IsFirstMinimum(last, seam[|seam| - 1])
    && seam == Backtrace(table, w, |seam| - 1, seam[|seam| - 1])
  }

  /**
    Seam `k` of `seams` is the one `findSeam` picks, when the width left is
    `w - k`, from a cost matrix whose last-row energies within the width are
    `lasts[k]` and whose parents are `tables[k]`.
  */
  ghost predicate SeamsFound(seams: seq<seq<int>>, lasts: seq<seq<int>>, tables: seq<seq<seq<Option<Path>>>>, w: nat) {
    && |lasts| == |tables| == |seams| <= w
    && forall k :: 0 <= k < |seams| ==> FoundIn(seams[k], lasts[k], tables[k], w - k)
  }

  lemma SeamsFoundSnoc(seams: seq<seq<int>>, lasts: seq<seq<int>>, tables: seq<seq<seq<Option<Path>>>>, seam: seq<int>, last: seq<int>, table: seq<seq<Option<Path>>>, w: nat, n: nat)
    requires SeamsFound(seams, lasts, tables, w) && 1 <= n == w - |seams|
    requires FoundIn(seam, last, table, n)
    ensures SeamsFound(seams + [seam], lasts + [last], tables + [table], w)
  {
    var n := |seams|;
    forall k | 0 <= k < n + 1
      ensures FoundIn((seams + [seam])[k], (lasts + [last])[k], (tables + [table])[k], w - k)
    {
      if k < n {
        assert (seams + [seam])[k] == seams[k] && (lasts + [last])[k] == lasts[k] && (tables + [table])[k] == tables[k];
      }
    }
  }

  /** When every seam backtraced from the first round's matrix is cheapest, so is the first seam found. */
  lemma FirstSeamIsCheapest(seams: seq<seq<int>>, lasts: seq<seq<int>>, tables: seq<seq<seq<Option<Path>>>>,
                            e: seq<seq<int>>, g: seq<seq<int>>, w: nat, h: nat)
    requires SeamsFound(seams, lasts, tables, w) && 0 < |seams| && |seams[0]| == h
    requires h <= |e| == |g| && Shaped(e, w) && Shaped(g, w)
    requires BacktracesAreCheapest(tables[0], e, g, w, h, lasts[0])
    ensures IsCheapestSeam(e, g, w, h, seams[0])
  {
    assert FoundIn(seams[0], lasts[0], tables[0], w - 0);
  }

  /**
    After the rounds of `findSeams` so far: the seams fit their widths,
    seam `k` was picked from the last row `lasts[k]` and parents
    `tables[k]`, and the mask and greyscale buffers (`mask`, `grey` at the
    start) are carved by all of them.
  */
  ghost predicate Rounds(seams: seq<seq<int>>, lasts: seq<seq<int>>, tables: seq<seq<seq<Option<Path>>>>,
                         mask: seq<seq<bool>>, grey: seq<seq<int>>, mask': seq<seq<bool>>, grey': seq<seq<int>>, w: nat)
  {
    && Shaped(mask, w) && Shaped(grey, w) && |grey| == |mask| && |seams| <= w
    && SeamsFit(seams, |mask|, w) && SeamsFound(seams, lasts, tables, w)
    && mask' == CarvedBySeams(mask, seams, w) && grey' == CarvedBySeams(grey, seams, w)
  }

  lemma RoundsSnoc(seams: seq<seq<int>>, lasts: seq<seq<int>>, tables: seq<seq<seq<Option<Path>>>>,
                   mask: seq<seq<bool>>, grey: seq<seq<int>>, mask': seq<seq<bool>>, grey': seq<seq<int>>, w: nat,
                   seam: seq<int>, last: seq<int>, table: seq<seq<Option<Path>>>, mask'': seq<seq<bool>>, grey'': seq<seq<int>>, n: nat)
    requires Rounds(seams, lasts, tables, mask, grey, mask', grey', w) && 1 <= n == w - |seams|
    requires |mask'| == |seam| && FoundIn(seam, last, table, n)
    requires mask'' == CarvedRows(mask', seam, n - 1) && grey'' == CarvedRows(grey', seam, n - 1)
    ensures Rounds(seams + [seam], lasts + [last], tables + [table], mask, grey, mask'', grey'', w)
    ensures (lasts + [last])[0] == if seams == [] then last else lasts[0]
    ensures (tables + [table])[0] == if seams == [] then table else tables[0]
  {
    assert IsPath(seam, n);
    CarvedBySeamsSnoc(mask, seams, seam, w, mask', mask'', n);
    CarvedBySeamsSnoc(grey, seams, seam, w, grey', grey'', n);
    SeamsFoundSnoc(seams, lasts, tables, seam, last, table, w, n);
  }

  /** Every parent stored in the first `w` cells of a cost row points to a column inside `w`. */
  predicate RowParentsFit(row: seq<EnergyPixel>, w: nat) {
    w <= |row| && forall x :: 0 <= x < w ==> 0 <= x + Move(row[x].parent) < w
  }

  /**
    Carving column `s` out of a row whose parents fit the old width `w + 1`
    and then recomputing the cells just left of and at the seam leaves
    parents that fit the new width `w`: the cell that lost its right-hand
    neighbour and the cell that lost its left-hand one are exactly the
    recomputed ones.
  */
  lemma RecomputedParentsFit(row: seq<EnergyPixel>, carved: seq<EnergyPixel>, before: seq<EnergyPixel>, above: seq<int>, g: seq<int>, ga: seq<int>, s: nat, w: nat)
    requires 1 <= w < |before| && s <= w && RowParentsFit(before, w + 1)
    requires |carved| == |before| && forall x :: 0 <= x < w ==> carved[x].parent == before[Source(x, s, w)].parent
    requires RowRecomputed(row, carved, above, g, ga, s, w)
    ensures RowParentsFit(row, w)
  {
    forall x | 0 <= x < w
      ensures 0 <= x + Move(row[x].parent) < w
    {
      if !(x + 1 == s || (x == s && s < w)) {
        assert row[x].parent == before[Source(x, s, w)].parent;
        assert 0 <= Source(x, s, w) + Move(before[Source(x, s, w)].parent) < w + 1;
      }
    }
  }

  /** The parents of a cost matrix fit a width exactly when those of each of its rows below the first do. */
  lemma ParentsFitByRows(m: array2<EnergyPixel>, w: nat)
    requires w <= m.Length1
    ensures ParentsFit(ParentGrid(m), w) <==> forall y :: 1 <= y < m.Length0 ==> RowParentsFit(Row(m, y), w)
  {
    var ps := ParentGrid(m);
    if ParentsFit(ps, w) {
      forall y | 1 <= y < m.Length0
        ensures RowParentsFit(Row(m, y), w)
      {
        forall x | 0 <= x < w
          ensures 0 <= x + Move(Row(m, y)[x].parent) < w
        {
          assert ps[y][x] == Row(m, y)[x].parent;
        }
      }
    }
    if forall y :: 1 <= y < m.Length0 ==> RowParentsFit(Row(m, y), w) {
      forall y, x | 1 <= y < |ps| && 0 <= x < w
        ensures 0 <= x + Move(ps[y][x]) < w
      {
        assert RowParentsFit(Row(m, y), w);
        assert ps[y][x] == Row(m, y)[x].parent;
      }
    }
  }

  class SeamsCarver {
    const inWidth: nat
    const inHeight: nat
    const outWidth: int
    const numOfSeams: nat
    const op: ResizeOp
    const workingImage: seq<seq<Rgb>>
    /** The gradient formula of `calcEnergy`, left abstract. */
    const magnitude: (int, int) -> nat
    /** The caller's mask, shared with the caller and shifted in place. */
    const imageMask: array2<bool>
    /** `null` until `setGreyscale` runs. */
    var greyscale: array2?<int>
    /** `null` until `initCostMatrix` runs. */
    var costMatrix: array2?<EnergyPixel>
    /** The number of columns still in the buffers: `inWidth` minus the seams removed. */
    var width: nat

    /** The buffers have the image's dimensions and the current width is within the input width. */
    ghost predicate Valid()
      reads this
    {
      && IsImage(workingImage, inWidth, inHeight)
      && imageMask.Length0 == inHeight && imageMask.Length1 == inWidth
      && 2 <= inWidth && 2 <= inHeight && 2 * numOfSeams <= inWidth
      && 1 <= width <= inWidth
      && (greyscale != null ==> greyscale.Length0 == inHeight && greyscale.Length1 == inWidth)
      && (costMatrix != null ==> costMatrix.Length0 == inHeight && costMatrix.Length1 == inWidth)
    }

    /** Every parent stored below the first row points to a column inside the current width. */
    ghost predicate ParentsInside()
      reads this, costMatrix
    {
      costMatrix != null && width <= costMatrix.Length1 && ParentsFit(ParentGrid(costMatrix), width)
    }

    /** No buffer computed and no seam removed yet. */
    ghost predicate Fresh()
      reads this
    {
      greyscale == null && costMatrix == null && width == inWidth
    }

    /** The seam count and the operation are those the constructor's checks select. */
    predicate Configured() {
      Configure(inWidth, inHeight, outWidth) == Success((numOfSeams, op))
    }

    constructor (workingImage: seq<seq<Rgb>>, inWidth: nat, outWidth: int, imageMask: array2<bool>, magnitude: (int, int) -> nat)
      requires IsImage(workingImage, inWidth, |workingImage|)
      requires imageMask.Length0 == |workingImage| && imageMask.Length1 == inWidth
      requires Configure(inWidth, |workingImage|, outWidth).Success?
      ensures Valid() && Fresh()
      ensures this.workingImage == workingImage && this.inWidth == inWidth && this.inHeight == |workingImage|
      ensures this.outWidth == outWidth && this.imageMask == imageMask && this.magnitude == magnitude
      ensures (this.numOfSeams, this.op) == Configure(inWidth, |workingImage|, outWidth).value && Configured()
    {
      var config := Configure(inWidth, |workingImage|, outWidth).value;
      this.workingImage := workingImage;
      this.inWidth := inWidth;
      this.inHeight := |workingImage|;
      this.outWidth := outWidth;
      this.numOfSeams := config.0;
      this.op := config.1;
      this.imageMask := imageMask;
      this.magnitude := magnitude;
      greyscale := null;
      costMatrix := null;
      width := inWidth;
    }

    /** Row `y` of the accumulated energies. */
    function EnergyRow(y: nat): (row: seq<int>)
      reads this`costMatrix, costMatrix
      requires costMatrix != null && y < costMatrix.Length0
      ensures |row| == costMatrix.Length1
    {
      EnergyRowOf(costMatrix, y)
    }

    /** The accumulated energies, row by row. */
    function Energies(): (grid: seq<seq<int>>)
      reads this`costMatrix, costMatrix
      requires costMatrix != null
      ensures |grid| == costMatrix.Length0 && Shaped(grid, costMatrix.Length1)
    {
      EnergyGrid(costMatrix)
    }

    /** The stored parents, row by row. */
    function Parents(): (grid: seq<seq<Option<Path>>>)
      reads this`costMatrix, costMatrix
      requires costMatrix != null
      ensures |grid| == costMatrix.Length0 && Shaped(grid, costMatrix.Length1)
    {
      ParentGrid(costMatrix)
    }

    /** Row `y` of the greyscale buffer. */
    function GreyRow(y: nat): (row: seq<int>)
      reads this`greyscale, greyscale
      requires greyscale != null && y < greyscale.Length0
      ensures |row| == greyscale.Length1
    {
      Row(greyscale, y)
    }

    /** The greyscale buffer, row by row. */
    function Grey(): (grid: seq<seq<int>>)
      reads this`greyscale, greyscale
      requires greyscale != null
      ensures |grid| == greyscale.Length0 && Shaped(grid, greyscale.Length1)
    {
      Grid(greyscale)
    }

    /** `setGreyscale`: a fresh buffer holding the packed grey colour of every pixel. */
    method SetGreyscale()
      requires Valid()
      modifies this
      ensures Valid() && greyscale != null && fresh(greyscale)
      ensures costMatrix == old(costMatrix) && width == old(width)
      ensures forall y, x :: 0 <= y < inHeight && 0 <= x < inWidth ==> greyscale[y, x] == GreyOf(workingImage[y][x])
      ensures Grey() == GreyImage(workingImage)
    {
      var result := new int[inHeight, inWidth];
      for y := 0 to inHeight
        modifies result
        invariant forall r, x :: 0 <= r < y && 0 <= x < inWidth ==> result[r, x] == GreyOf(workingImage[r][x])
      {
        for x := 0 to inWidth
          modifies result
          invariant forall r, c :: 0 <= r < y && 0 <= c < inWidth ==> result[r, c] == GreyOf(workingImage[r][c])
          invariant forall c :: 0 <= c < x ==> result[y, c] == GreyOf(workingImage[y][c])
        {
          result[y, x] := GreyOf(workingImage[y][x]);
        }
      }
      greyscale := result;
      GridsEqual(Grey(), GreyImage(workingImage));
    }

    /**
      `calcEnergy(y, x)`: `Long.MIN_VALUE` for a masked pixel, otherwise the
      gradient magnitude of the grey differences towards the horizontal and
      the vertical neighbour. The horizontal neighbour is the one the code
      picks against `inWidth` while that is inside the current width.
    */
    function CalcEnergy(y: nat, x: nat): (energy: int)
      reads this`greyscale, this`width, imageMask, greyscale
      requires greyscale != null && greyscale.Length0 == imageMask.Length0 == inHeight
      requires greyscale.Length1 == imageMask.Length1 == inWidth
      requires y < inHeight && x < width <= inWidth
      ensures imageMask[y, x] <==> energy == LongMin
      ensures energy == LongMin || energy >= 0
      ensures !imageMask[y, x] ==>
        energy == magnitude(greyscale[y, NeighbourWithin(x, inWidth, width)] - greyscale[y, x], greyscale[Neighbour(y, inHeight), x] - greyscale[y, x])
    {
      Gradient(imageMask[y, x], greyscale[y, x], greyscale[y, NeighbourWithin(x, inWidth, width)], greyscale[Neighbour(y, inHeight), x])
    }

    /**
      `calcEnergy`'s formula on values: `Long.MIN_VALUE` for a masked pixel,
      otherwise the gradient magnitude of the grey differences from the
      pixel's grey value `here` to its horizontal and vertical neighbours'.
    */
    function Gradient(masked: bool, here: int, beside: int, vertical: int): (energy: int)
      ensures masked <==> energy == LongMin
      ensures !masked ==> energy == magnitude(beside - here, vertical - here)
    {
      if masked then LongMin else magnitude(beside - here, vertical - here)
    }

    /** The pixel `initCostMatrix` stores at (y, x): grey value and energy, no parent yet. */
    function InitialPixel(y: nat, x: nat): (pixel: EnergyPixel)
      reads this`greyscale, this`width, imageMask, greyscale
      requires greyscale != null && greyscale.Length0 == imageMask.Length0 == inHeight
      requires greyscale.Length1 == imageMask.Length1 == inWidth
      requires y < inHeight && x < width <= inWidth
      ensures pixel.parent == None && pixel.intensity == greyscale[y, x]
    {
      EnergyPixel(greyscale[y, x], CalcEnergy(y, x), None)
    }

    /** The energy `calcEnergy` gives every pixel of an image with mask `mask` and greyscale buffer `grey`. */
    function ImageEnergies(mask: seq<seq<bool>>, grey: seq<seq<int>>): (e: seq<seq<int>>)
      requires |mask| == |grey| == inHeight && Shaped(mask, inWidth) && Shaped(grey, inWidth)
      ensures |e| == inHeight && forall y :: 0 <= y < inHeight ==> |e[y]| == inWidth
      ensures forall y, x :: 0 <= y < inHeight && 0 <= x < inWidth ==>
        e[y][x] == Gradient(mask[y][x], grey[y][x], grey[y][Neighbour(x, inWidth)], grey[Neighbour(y, inHeight)][x])
    {
      seq(inHeight, y requires 0 <= y < inHeight =>
        seq(inWidth, x requires 0 <= x < inWidth =>
          Gradient(mask[y][x], grey[y][x], grey[y][Neighbour(x, inWidth)], grey[Neighbour(y, inHeight)][x])))
    }

    /** The cost matrix `initCostMatrix` builds, one pixel at a time in row-major order. */
    method EnergyMatrix() returns (e: array2<EnergyPixel>)
      requires greyscale != null && greyscale.Length0 == imageMask.Length0 == inHeight
      requires greyscale.Length1 == imageMask.Length1 == inWidth == width
      ensures fresh(e) && e.Length0 == inHeight && e.Length1 == inWidth
      ensures forall y, x :: 0 <= y < inHeight && 0 <= x < inWidth ==> e[y, x] == InitialPixel(y, x)
    {
      e := new EnergyPixel[inHeight, inWidth];
      for y := 0 to inHeight
        modifies e
        invariant forall r, x :: 0 <= r < y && 0 <= x < inWidth ==> e[r, x] == InitialPixel(r, x)
      {
        for x := 0 to inWidth
          modifies e
          invariant forall r, c :: 0 <= r < y && 0 <= c < inWidth ==> e[r, c] == InitialPixel(r, c)
          invariant forall c :: 0 <= c < x ==> e[y, c] == InitialPixel(y, c)
        {
          e[y, x] := InitialPixel(y, x);
        }
      }
    }

    /**
      `initCostMatrix`: computes the greyscale buffer if it is missing, then a
      fresh cost matrix holding each pixel's grey value and energy, no parent.
    */
    method InitCostMatrix()
      requires Valid() && width == inWidth
      modifies this
      ensures Valid() && width == inWidth && greyscale != null && costMatrix != null && fresh(costMatrix)
      ensures old(greyscale) != null ==> greyscale == old(greyscale)
      ensures old(greyscale) == null ==> (fresh(greyscale) &&
        forall y, x :: 0 <= y < inHeight && 0 <= x < inWidth ==> greyscale[y, x] == GreyOf(workingImage[y][x]))
      ensures forall y, x :: 0 <= y < inHeight && 0 <= x < inWidth ==> costMatrix[y, x] == InitialPixel(y, x)
      ensures Energies() == ImageEnergies(Grid(imageMask), Grey())
    {
      if greyscale == null {
        SetGreyscale();
      }
      var e := EnergyMatrix();
      costMatrix := e;
      ghost var mask, grey := Grid(imageMask), Grey();
      ghost var energies, expected := Energies(), ImageEnergies(mask, grey);
      forall y, x | 0 <= y < inHeight && 0 <= x < inWidth
        ensures energies[y][x] == expected[y][x]
      {
        assert energies[y][x] == e[y, x].energy == CalcEnergy(y, x);
        assert mask[y][x] == imageMask[y, x] && grey[y][x] == greyscale[y, x];
        assert grey[y][Neighbour(x, inWidth)] == greyscale[y, Neighbour(x, inWidth)];
        assert grey[Neighbour(y, inHeight)][x] == greyscale[Neighbour(y, inHeight), x];
      }
      GridsEqual(energies, expected);
    }

    /**
      The decision `calcRecursiveCost(y, x)` takes: the three ways into (y, x)
      from the row above, each the accumulated energy there plus the new
      edges the step creates, a missing left or right neighbour counting as
      `Long.MAX_VALUE`; the first cheapest one and its value.
    */
    method RecursiveStep(y: nat, x: nat) returns (p: Path, val: int)
      requires greyscale != null && costMatrix != null && 1 <= y < inHeight && x < width
      requires greyscale.Length0 == costMatrix.Length0 == inHeight && width <= greyscale.Length1 == costMatrix.Length1
      ensures Step(p, val) == ForwardStep(EnergyRow(y - 1), GreyRow(y), GreyRow(y - 1), x, width)
    {
      var m, g := costMatrix, greyscale;
      ghost var up, row, rowAbove := EnergyRow(y - 1), GreyRow(y), GreyRow(y - 1);
      var left: Cost := Infinite;
      var right: Cost := Infinite;
      var edge := if 0 < x && x + 1 < width then Abs(g[y, x + 1] - g[y, x - 1]) else 0;
      assert edge == NewEdge(row, x, width);
      var center := Finite(m[y - 1, x].energy + edge);
      if x != 0 {
        var cl := edge + Abs(g[y - 1, x] - g[y, x - 1]);
        left := Finite(m[y - 1, x - 1].energy + cl);
      }
      if x != width - 1 {
        var cr := edge + Abs(g[y, x + 1] - g[y - 1, x]);
        right := Finite(m[y - 1, x + 1].energy + cr);
      }
      assert left == Candidate(up, row, rowAbove, x, width, L);
      assert center == Candidate(up, row, rowAbove, x, width, V);
      assert right == Candidate(up, row, rowAbove, x, width, R);
      p := PathByMinimum(left, center, right);
      val := if p == L then left.v else if p == V then center.v else right.v;
    }

    /**
      `calcRecursiveCost(y, x)`: adds the value of the cheapest way into
      (y, x) to the cell's energy and records its direction as the parent.
    */
    method CalcRecursiveCost(y: nat, x: nat)
      requires Valid() && greyscale != null && costMatrix != null && 1 <= y < inHeight && x < width
      modifies costMatrix
      ensures Valid()
      ensures Row(costMatrix, y) == Relaxed(old(Row(costMatrix, y)), EnergiesOf(Row(costMatrix, y - 1)), Row(greyscale, y), Row(greyscale, y - 1), x, width)
      ensures forall r :: 0 <= r < inHeight && r != y ==> Row(costMatrix, r) == old(Row(costMatrix, r))
    {
      var p, val := RecursiveStep(y, x);
      ghost var up := EnergyRow(y - 1);
      var m := costMatrix;
      m[y, x] := m[y, x].(energy := m[y, x].energy + val, parent := Some(p));
      assert EnergyRow(y - 1) == up;
    }

    /**
      One row of `calcForwardCostMatrix`: every cell of row `y` in turn gets
      the step from the row above added to its energy and that step's
      direction as its parent; nothing else changes.
    */
    method CalcCostRow(y: nat)
      requires Valid() && greyscale != null && costMatrix != null && 1 <= y < inHeight
      modifies costMatrix
      ensures Valid()
      ensures forall c :: 0 <= c < width ==>
        var s := ForwardStep(old(EnergyRow(y - 1)), GreyRow(y), GreyRow(y - 1), c, width);
        costMatrix[y, c] == old(costMatrix[y, c]).(energy := old(costMatrix[y, c].energy) + s.value, parent := Some(s.parent))
      ensures forall r, c :: 0 <= r < inHeight && 0 <= c < inWidth && (r != y || width <= c) ==> costMatrix[r, c] == old(costMatrix[r, c])
    {
      ghost var cost := Grid(costMatrix);
      ghost var before, up, g, ga := cost[y], EnergiesOf(cost[y - 1]), Row(greyscale, y), Row(greyscale, y - 1);
      for x := 0 to width
        invariant Valid()
        invariant Row(costMatrix, y) == RelaxedPrefix(before, up, g, ga, x, width)
        invariant forall r :: 0 <= r < inHeight && r != y ==> Row(costMatrix, r) == cost[r]
      {
        CalcRecursiveCost(y, x);
      }
      RowParts(costMatrix, y - 1);
      assert old(EnergyRow(y - 1)) == up;
      forall c | 0 <= c < width
        ensures costMatrix[y, c] == RelaxedCell(old(costMatrix[y, c]), up, g, ga, c, width)
      {
        assert Row(costMatrix, y)[c] == RelaxedCell(before[c], up, g, ga, c, width);
      }
      forall r, c | 0 <= r < inHeight && 0 <= c < inWidth && (r != y || width <= c)
        ensures costMatrix[r, c] == old(costMatrix[r, c])
      {
        if r != y {
          assert Row(costMatrix, r)[c] == cost[r][c];
        } else {
          assert Row(costMatrix, y)[c] == before[c];
        }
      }
    }

    /**
      `calcForwardCostMatrix`: every row below the first in turn; afterwards
      the cost matrix holds the forward-cost table of the energies it held
      before, with the table's parents.
    */
    method CalcForwardCostMatrix()
      requires Valid() && greyscale != null && costMatrix != null
      modifies costMatrix
      ensures Valid() && ParentsInside()
      ensures IsTable(Energies(), Parents(), old(Energies()), Grey(), width)
      ensures forall y, x :: 0 <= y < inHeight && 0 <= x < inWidth && (y == 0 || width <= x) ==> costMatrix[y, x] == old(costMatrix[y, x])
      ensures forall y, x :: 0 <= y < inHeight && 0 <= x < inWidth ==> costMatrix[y, x].intensity == old(costMatrix[y, x].intensity)
    {
      ghost var e := Energies();
      ghost var g := Grey();
      assert IsTablePrefix(Energies(), Parents(), e, g, width, 1);
      for y := 1 to inHeight
        invariant Valid() && IsTablePrefix(Energies(), Parents(), e, g, width, y)
        invariant forall r, c :: 0 <= r < inHeight && 0 <= c < inWidth && (r == 0 || y <= r || width <= c) ==> costMatrix[r, c] == old(costMatrix[r, c])
        invariant forall r, c :: 0 <= r < inHeight && 0 <= c < inWidth ==> costMatrix[r, c].intensity == old(costMatrix[r, c].intensity)
      {
        ghost var c, ps := Energies(), Parents();
        CalcCostRow(y);
        TablePrefixStep(c, ps, Energies(), Parents(), e, g, width, y);
      }
      TableParentsInside(e, g);
    }

    /** A cost matrix holding a forward-cost table has every parent inside the width. */
    lemma TableParentsInside(e: seq<seq<int>>, g: seq<seq<int>>)
      requires Valid() && costMatrix != null && IsTable(Energies(), Parents(), e, g, width)
      ensures ParentsInside()
    {
      TableIsConsistent(Energies(), Parents(), e, g, width);
    }

    /**
      `findSeam`: starting from the first cheapest cell of the last row, the
      column of every row from the bottom up, each one moved from the row
      below by that cell's stored parent. The search for the cheapest cell
      covers the current width.
    */
    method FindSeam() returns (seam: seq<int>, ghost last: seq<int>, ghost table: seq<seq<Option<Path>>>)
      requires Valid() && ParentsInside()
      ensures |seam| == inHeight && IsPath(seam, width)
      ensures IsFirstMinimum(EnergyRow(inHeight - 1)[..width], seam[inHeight - 1])
      ensures seam == Backtrace(Parents(), width, inHeight - 1, seam[inHeight - 1])
      ensures last == EnergyRow(inHeight - 1)[..width] && table == Parents() && FoundIn(seam, last, table, width)
    {
      var s := new int[inHeight];
      var j := inHeight - 1;
      var lastRow := EnergyRow(j)[..width];
      var idx := FindMinCostIdx(lastRow);
      ghost var ps := Parents();
      ghost var walk := Backtrace(ps, width, inHeight - 1, idx);
      var i := s.Length - 1;
      while i >= 0
        invariant -1 <= i < inHeight && j == i
        invariant forall k :: i < k < inHeight ==> s[k] == walk[k]
        invariant i >= 0 ==> idx == walk[i]
      {
        s[i] := idx;
        var p := costMatrix[j, idx].parent;
        assert p == ps[i][idx];
        j := j - 1;
        if p == Some(L) {
          idx := idx - 1;
        } else if p == Some(R) {
          idx := idx + 1;
        }
        assert i > 0 ==> Linked(ps, walk, i - 1);
        i := i - 1;
      }
      seam := s[..];
      assert seam == walk;
      last, table := lastRow, ps;
    }

    /**
      A cost matrix row after the first loop of `updateCostMatrix` has been
      through it: column `s` carved out, and the cell left of `s`, if any,
      given the energy `calcEnergy` computes from the carved mask and grey
      row, with `vertical` the grey row it reads as its vertical neighbour.
    */
    function CarveCostRow(mask: seq<bool>, grey: seq<int>, vertical: seq<int>, row: seq<EnergyPixel>, s: nat, n: nat): (r: seq<EnergyPixel>)
      requires |mask| == |grey| == |vertical| == |row| && s <= n < |row| && n < inWidth
      ensures |r| == |row|
      ensures forall x :: 0 <= x < n ==> r[x].parent == row[Source(x, s, n)].parent && r[x].intensity == row[Source(x, s, n)].intensity
      ensures forall x :: 0 <= x < n && x + 1 != s ==> r[x] == row[Source(x, s, n)]
    {
      if s == 0 then Carved(row, s, n)
      else
        var x, g := s - 1, Carved(grey, s, n);
        Carved(row, s, n)[x := row[x].(energy := Gradient(mask[x], g[x], g[NeighbourWithin(x, inWidth, n)], vertical[x]))]
    }

    /**
      The inner loop of `updateCostMatrix` for row `y`: every cell from
      column `s` to the last one of the (already reduced) width takes the
      mask value, grey value and cost cell of its right neighbour.
    */
    method ShiftRow(y: nat, s: nat)
      requires Valid() && greyscale != null && costMatrix != null
      requires y < inHeight && s <= width < inWidth
      modifies imageMask, greyscale, costMatrix
      ensures forall r :: 0 <= r < inHeight && r != y ==>
        Row(imageMask, r) == old(Row(imageMask, r)) && Row(greyscale, r) == old(Row(greyscale, r)) && Row(costMatrix, r) == old(Row(costMatrix, r))
      ensures Row(imageMask, y) == Carved(old(Row(imageMask, y)), s, width)
      ensures Row(greyscale, y) == Carved(old(Row(greyscale, y)), s, width)
      ensures Row(costMatrix, y) == Carved(old(Row(costMatrix, y)), s, width)
    {
      for x := s to width
        invariant forall r, c :: 0 <= r < inHeight && 0 <= c < inWidth ==>
          var from := if r == y && s <= c < x then c + 1 else c;
          && imageMask[r, c] == old(imageMask[r, from])
          && greyscale[r, c] == old(greyscale[r, from])
          && costMatrix[r, c] == old(costMatrix[r, from])
      {
        imageMask[y, x] := imageMask[y, x + 1];
        greyscale[y, x] := greyscale[y, x + 1];
        costMatrix[y, x] := costMatrix[y, x + 1];
      }
      assert Row(imageMask, y) == Carved(old(Row(imageMask, y)), s, width);
      assert Row(greyscale, y) == Carved(old(Row(greyscale, y)), s, width);
      assert Row(costMatrix, y) == Carved(old(Row(costMatrix, y)), s, width);
      forall r | 0 <= r < inHeight && r != y
        ensures Row(imageMask, r) == old(Row(imageMask, r)) && Row(greyscale, r) == old(Row(greyscale, r)) && Row(costMatrix, r) == old(Row(costMatrix, r))
      {
        assert Row(imageMask, r) == old(Row(imageMask, r));
        assert Row(greyscale, r) == old(Row(greyscale, r));
        assert Row(costMatrix, r) == old(Row(costMatrix, r));
      }
    }

    /**
      One row of the first loop of `updateCostMatrix`: column `s` is carved
      out of row `y` of the three buffers, then the cell left of it, if any,
      gets its `calcEnergy` value back, computed from the carved row and the
      other rows as they stand.
    */
    method CarveRow(y: nat, s: nat)
      requires Valid() && greyscale != null && costMatrix != null
      requires y < inHeight && s <= width < inWidth
      modifies imageMask, greyscale, costMatrix
      ensures forall r :: 0 <= r < inHeight && r != y ==>
        Row(imageMask, r) == old(Row(imageMask, r)) && Row(greyscale, r) == old(Row(greyscale, r)) && Row(costMatrix, r) == old(Row(costMatrix, r))
      ensures Row(imageMask, y) == Carved(old(Row(imageMask, y)), s, width)
      ensures Row(greyscale, y) == Carved(old(Row(greyscale, y)), s, width)
      ensures Row(costMatrix, y) ==
        CarveCostRow(old(Row(imageMask, y)), old(Row(greyscale, y)), old(Row(greyscale, Neighbour(y, inHeight))), old(Row(costMatrix, y)), s, width)
    {
      ShiftRow(y, s);
      if s >= 1 {
        var x := s - 1;
        ghost var ny := Neighbour(y, inHeight);
        ghost var gy := Carved(old(Row(greyscale, y)), s, width);
        assert greyscale[y, x] == gy[x] && greyscale[y, NeighbourWithin(x, inWidth, width)] == gy[NeighbourWithin(x, inWidth, width)];
        assert greyscale[ny, x] == old(Row(greyscale, ny))[x];
        assert CalcEnergy(y, x) == Gradient(old(Row(imageMask, y))[x], gy[x], gy[NeighbourWithin(x, inWidth, width)], old(Row(greyscale, ny))[x]);
        label Shifted:
        costMatrix[y, x] := costMatrix[y, x].(energy := CalcEnergy(y, x));
        assert Row(costMatrix, y) == old@Shifted(Row(costMatrix, y))[x := costMatrix[y, x]];
        forall r | 0 <= r < inHeight && r != y
          ensures Row(costMatrix, r) == old@Shifted(Row(costMatrix, r))
        {
          assert Row(costMatrix, r) == old@Shifted(Row(costMatrix, r));
        }
      }
    }

    /** Three buffers of the image's height whose rows all have the input width. */
    ghost predicate Buffers(m: seq<seq<bool>>, g: seq<seq<int>>, c: seq<seq<EnergyPixel>>) {
      |m| == |g| == |c| == inHeight && forall r :: 0 <= r < inHeight ==> |m[r]| == |g[r]| == |c[r]| == inWidth
    }

    /**
      Rows before `y` of the buffers `m`, `g`, `c` are those of `mask`,
      `grey`, `cost` carved at the seam, each left cell re-energised against
      the vertical neighbour as it stood when its row was carved; the other
      rows are untouched.
    */
    ghost predicate CarvedUpTo(m: seq<seq<bool>>, g: seq<seq<int>>, c: seq<seq<EnergyPixel>>,
                               mask: seq<seq<bool>>, grey: seq<seq<int>>, cost: seq<seq<EnergyPixel>>, seam: seq<int>, w: nat, y: nat)
      requires Buffers(mask, grey, cost) && |seam| == inHeight && w < inWidth
      requires forall r :: 0 <= r < inHeight ==> 0 <= seam[r] <= w
    {
      && Buffers(m, g, c)
      && forall r :: 0 <= r < inHeight ==>
        if r < y then
          var nr := Neighbour(r, inHeight);
          var vertical := if nr < r then Carved(grey[nr], seam[nr], w) else grey[nr];
          m[r] == Carved(mask[r], seam[r], w) && g[r] == Carved(grey[r], seam[r], w)
          && c[r] == CarveCostRow(mask[r], grey[r], vertical, cost[r], seam[r], w)
        else m[r] == mask[r] && g[r] == grey[r] && c[r] == cost[r]
    }

    /** Carving row `y` of buffers carved up to `y` gives buffers carved up to `y + 1`. */
    lemma CarvedUpToStep(m: seq<seq<bool>>, g: seq<seq<int>>, c: seq<seq<EnergyPixel>>,
                         m': seq<seq<bool>>, g': seq<seq<int>>, c': seq<seq<EnergyPixel>>,
                         mask: seq<seq<bool>>, grey: seq<seq<int>>, cost: seq<seq<EnergyPixel>>, seam: seq<int>, w: nat, y: nat)
      requires Buffers(mask, grey, cost) && |seam| == inHeight && w < inWidth
      requires forall r :: 0 <= r < inHeight ==> 0 <= seam[r] <= w
      requires y < inHeight && CarvedUpTo(m, g, c, mask, grey, cost, seam, w, y) && Buffers(m', g', c')
      requires forall r :: 0 <= r < inHeight && r != y ==> m'[r] == m[r] && g'[r] == g[r] && c'[r] == c[r]
      requires m'[y] == Carved(m[y], seam[y], w) && g'[y] == Carved(g[y], seam[y], w)
      requires c'[y] == CarveCostRow(m[y], g[y], g[Neighbour(y, inHeight)], c[y], seam[y], w)
      ensures CarvedUpTo(m', g', c', mask, grey, cost, seam, w, y + 1)
    {
      var ny := Neighbour(y, inHeight);
      assert g[ny] == if ny < y then Carved(grey[ny], seam[ny], w) else grey[ny];
    }

    /**
      The first loop of `updateCostMatrix`, with the width already reduced:
      row by row, the seam's column is carved out of the mask, the greyscale
      buffer and the cost matrix, and the cell left of the seam gets its
      energy recomputed. That energy sees the rows above already carved and
      the rows below not yet.
    */
    method ShiftOut(seam: seq<int>)
      requires Valid() && greyscale != null && costMatrix != null && width < inWidth
      requires |seam| == inHeight && IsPath(seam, width + 1)
      modifies imageMask, greyscale, costMatrix
      ensures forall y :: 0 <= y < inHeight ==>
        Row(imageMask, y) == Carved(old(Row(imageMask, y)), seam[y], width) && Row(greyscale, y) == Carved(old(Row(greyscale, y)), seam[y], width)
      ensures forall y :: 0 <= y < inHeight ==>
        var ny := Neighbour(y, inHeight);
        var vertical := if ny < y then Carved(old(Row(greyscale, ny)), seam[ny], width) else old(Row(greyscale, ny));
        Row(costMatrix, y) == CarveCostRow(old(Row(imageMask, y)), old(Row(greyscale, y)), vertical, old(Row(costMatrix, y)), seam[y], width)
    {
      ghost var mask, grey, cost := Grid(imageMask), Grid(greyscale), Grid(costMatrix);
      assert forall y :: 0 <= y < inHeight ==>
        mask[y] == old(Row(imageMask, y)) && grey[y] == old(Row(greyscale, y)) && cost[y] == old(Row(costMatrix, y));
      for y := 0 to inHeight
        invariant CarvedUpTo(Grid(imageMask), Grid(greyscale), Grid(costMatrix), mask, grey, cost, seam, width, y)
      {
        CarveNextRow(mask, grey, cost, seam, y);
      }
      CarvedRowsRead(mask, grey, cost, seam);
    }

    /** One step of `ShiftOut`'s loop: row `y` carved after the rows above it. */
    method CarveNextRow(ghost mask: seq<seq<bool>>, ghost grey: seq<seq<int>>, ghost cost: seq<seq<EnergyPixel>>, seam: seq<int>, y: nat)
      requires Valid() && greyscale != null && costMatrix != null && width < inWidth
      requires Buffers(mask, grey, cost) && |seam| == inHeight && forall r :: 0 <= r < inHeight ==> 0 <= seam[r] <= width
      requires y < inHeight && CarvedUpTo(Grid(imageMask), Grid(greyscale), Grid(costMatrix), mask, grey, cost, seam, width, y)
      modifies imageMask, greyscale, costMatrix
      ensures CarvedUpTo(Grid(imageMask), Grid(greyscale), Grid(costMatrix), mask, grey, cost, seam, width, y + 1)
    {
      ghost var m, g, c := Grid(imageMask), Grid(greyscale), Grid(costMatrix);
      CarveRow(y, seam[y]);
      CarvedUpToStep(m, g, c, Grid(imageMask), Grid(greyscale), Grid(costMatrix), mask, grey, cost, seam, width, y);
    }

    /** Buffers carved in every row, read back row by row. */
    lemma CarvedRowsRead(mask: seq<seq<bool>>, grey: seq<seq<int>>, cost: seq<seq<EnergyPixel>>, seam: seq<int>)
      requires Valid() && greyscale != null && costMatrix != null && width < inWidth
      requires Buffers(mask, grey, cost) && |seam| == inHeight && forall r :: 0 <= r < inHeight ==> 0 <= seam[r] <= width
      requires CarvedUpTo(Grid(imageMask), Grid(greyscale), Grid(costMatrix), mask, grey, cost, seam, width, inHeight)
      ensures forall y :: 0 <= y < inHeight ==>
        Row(imageMask, y) == Carved(mask[y], seam[y], width) && Row(greyscale, y) == Carved(grey[y], seam[y], width)
      ensures forall y :: 0 <= y < inHeight ==>
        var ny := Neighbour(y, inHeight);
        var vertical := if ny < y then Carved(grey[ny], seam[ny], width) else grey[ny];
        Row(costMatrix, y) == CarveCostRow(mask[y], grey[y], vertical, cost[y], seam[y], width)
    {
      ghost var m, g, c := Grid(imageMask), Grid(greyscale), Grid(costMatrix);
      assert forall y :: 0 <= y < inHeight ==> m[y] == Row(imageMask, y) && g[y] == Row(greyscale, y) && c[y] == Row(costMatrix, y);
    }

    /**
      The second loop of `updateCostMatrix`: in every row below the first,
      the cells just left of and at the seam's column (those inside the
      width) are recomputed by `calcRecursiveCost`, from the row above as it
      stands after its own recomputation.
    */
    method Recompute(seam: seq<int>)
      requires Valid() && greyscale != null && costMatrix != null
      requires |seam| == inHeight && forall y :: 0 <= y < inHeight ==> 0 <= seam[y] <= width
      modifies costMatrix
      ensures Row(costMatrix, 0) == old(Row(costMatrix, 0))
      ensures forall y :: 1 <= y < inHeight ==>
        RowRecomputed(Row(costMatrix, y), old(Row(costMatrix, y)), EnergiesOf(Row(costMatrix, y - 1)), Row(greyscale, y), Row(greyscale, y - 1), seam[y], width)
    {
      ghost var cost, grey := Grid(costMatrix), Grid(greyscale);
      for y := 1 to inHeight
        invariant Grid(greyscale) == grey
        invariant RowsRecomputed(Grid(costMatrix), cost, grey, seam, width, y)
        invariant forall r :: 0 <= r < inHeight && (r == 0 || y <= r) ==> Grid(costMatrix)[r] == cost[r]
      {
        ghost var rows := Grid(costMatrix);
        RecomputeRow(y, seam[y]);
        RowsRecomputedStep(rows, Grid(costMatrix), cost, grey, seam, width, y);
      }
      ghost var rows := Grid(costMatrix);
      assert rows[0] == cost[0];
      forall y | 1 <= y < inHeight
        ensures RowRecomputed(Row(costMatrix, y), old(Row(costMatrix, y)), EnergiesOf(Row(costMatrix, y - 1)), Row(greyscale, y), Row(greyscale, y - 1), seam[y], width)
      {
        assert rows[y] == Row(costMatrix, y) && rows[y - 1] == Row(costMatrix, y - 1);
        assert grey[y] == Row(greyscale, y) && grey[y - 1] == Row(greyscale, y - 1);
      }
    }

    /** One row of the second loop of `updateCostMatrix`, where the seam is at column `s`. */
    method RecomputeRow(y: nat, s: nat)
      requires Valid() && greyscale != null && costMatrix != null && 1 <= y < inHeight && s <= width
      modifies costMatrix
      ensures forall r :: 0 <= r < inHeight && r != y ==> Row(costMatrix, r) == old(Row(costMatrix, r))
      ensures RowRecomputed(Row(costMatrix, y), old(Row(costMatrix, y)), EnergiesOf(Row(costMatrix, y - 1)), Row(greyscale, y), Row(greyscale, y - 1), s, width)
    {
      ghost var before, up := Row(costMatrix, y), EnergiesOf(Row(costMatrix, y - 1));
      if 1 <= s {
        CalcRecursiveCost(y, s - 1);
      }
      ghost var mid := Row(costMatrix, y);
      if s < width {
        CalcRecursiveCost(y, s);
      }
      RelaxedTwiceRecomputes(Row(costMatrix, y), mid, before, up, Row(greyscale, y), Row(greyscale, y - 1), s, width);
    }

    /**
      `updateCostMatrix`, with the width reduced by one for the removed
      seam: the seam's column is carved out of the three buffers, the cell
      left of it gets its energy recomputed, then, from the second row down,
      the cells just left of and at the seam are recomputed from the row
      above. Parents that fitted the old width fit the new one.
    */
    method UpdateCostMatrix(seam: seq<int>)
      requires Valid() && greyscale != null && costMatrix != null && 2 <= width
      requires |seam| == inHeight && IsPath(seam, width)
      modifies this, imageMask, greyscale, costMatrix
      ensures Valid() && width == old(width) - 1
      ensures greyscale == old(greyscale) && costMatrix == old(costMatrix)
      ensures forall y :: 0 <= y < inHeight ==>
        Row(imageMask, y) == Carved(old(Row(imageMask, y)), seam[y], width) && Row(greyscale, y) == Carved(old(Row(greyscale, y)), seam[y], width)
      ensures forall y :: 0 <= y < inHeight ==>
        var ny := Neighbour(y, inHeight);
        var vertical := if ny < y then Carved(old(Row(greyscale, ny)), seam[ny], width) else old(Row(greyscale, ny));
        var carved := CarveCostRow(old(Row(imageMask, y)), old(Row(greyscale, y)), vertical, old(Row(costMatrix, y)), seam[y], width);
        if y == 0 then Row(costMatrix, y) == carved
        else RowRecomputed(Row(costMatrix, y), carved, EnergiesOf(Row(costMatrix, y - 1)), Row(greyscale, y), Row(greyscale, y - 1), seam[y], width)
      ensures old(ParentsInside()) ==> ParentsInside()
    {
      ghost var cost := Grid(costMatrix);
      ghost var fitted := ParentsInside();
      ParentsFitByRows(costMatrix, width);
      width := width - 1;
      ShiftOut(seam);
      ghost var carved := Grid(costMatrix);
      Recompute(seam);
      if fitted {
        forall y | 1 <= y < inHeight
          ensures RowParentsFit(Row(costMatrix, y), width)
        {
          assert RowParentsFit(cost[y], width + 1);
          RecomputedParentsFit(Row(costMatrix, y), carved[y], cost[y], EnergiesOf(Row(costMatrix, y - 1)), Row(greyscale, y), Row(greyscale, y - 1), seam[y], width);
        }
        ParentsFitByRows(costMatrix, width);
      }
    }

    /**
      `findSeams`: `numOfSeams` times, the cheapest seam of the current cost
      matrix is found and removed. Seam `k` is a path through the width left
      after the `k` earlier removals, and is the backtrace from a first
      minimum of `lasts[k]` in `tables[k]`. Only the first of those is tied
      to the state: the last-row energies and parents of the matrix as it
      was. The mask and the greyscale buffer end up carved by every seam in
      turn.
    */
    method FindSeams() returns (seams: seq<seq<int>>, ghost lasts: seq<seq<int>>, ghost tables: seq<seq<seq<Option<Path>>>>)
      requires Valid() && greyscale != null && ParentsInside() && numOfSeams < width
      modifies this, imageMask, greyscale, costMatrix
      ensures Valid() && ParentsInside() && width == old(width) - numOfSeams
      ensures greyscale == old(greyscale) && costMatrix == old(costMatrix)
      ensures |seams| == numOfSeams && SeamsFit(seams, inHeight, old(width))
      ensures SeamsFound(seams, lasts, tables, old(width))
      ensures 0 < numOfSeams ==> lasts[0] == old(EnergyRow(inHeight - 1))[..old(width)] && tables[0] == old(Parents())
      ensures Grid(imageMask) == CarvedBySeams(old(Grid(imageMask)), seams, old(width))
      ensures Grid(greyscale) == CarvedBySeams(old(Grid(greyscale)), seams, old(width))
    {
      ghost var w, mask, grey := width, Grid(imageMask), Grid(greyscale);
      ghost var lastRow, ps := EnergyRow(inHeight - 1)[..width], Parents();
      seams, lasts, tables := [], [], [];
      for k := 0 to numOfSeams
        invariant Valid() && greyscale != null && ParentsInside() && width == w - k
        invariant greyscale == old(greyscale) && costMatrix == old(costMatrix)
        invariant |seams| == k && Rounds(seams, lasts, tables, mask, grey, Grid(imageMask), Grid(greyscale), w)
        invariant 0 < k ==> lasts[0] == lastRow && tables[0] == ps
        invariant k == 0 ==> Parents() == ps && EnergyRow(inHeight - 1)[..width] == lastRow
      {
        ghost var last, table := EnergyRow(inHeight - 1)[..width], Parents();
        var seam := Round(seams, lasts, tables, mask, grey, w);
        seams, lasts, tables := seams + [seam], lasts + [last], tables + [table];
      }
    }

    /** Round `|seams|` of `findSeams`, with the bookkeeping of the rounds before it carried along. */
    method Round(ghost seams: seq<seq<int>>, ghost lasts: seq<seq<int>>, ghost tables: seq<seq<seq<Option<Path>>>>,
                 ghost mask: seq<seq<bool>>, ghost grey: seq<seq<int>>, ghost w: nat) returns (seam: seq<int>)
      requires Valid() && greyscale != null && ParentsInside() && 2 <= width == w - |seams|
      requires Rounds(seams, lasts, tables, mask, grey, Grid(imageMask), Grid(greyscale), w)
      modifies this, imageMask, greyscale, costMatrix
      ensures Valid() && ParentsInside() && width == old(width) - 1
      ensures greyscale == old(greyscale) && costMatrix == old(costMatrix)
      ensures Rounds(seams + [seam], lasts + [old(EnergyRow(inHeight - 1))[..old(width)]], tables + [old(Parents())], mask, grey, Grid(imageMask), Grid(greyscale), w)
    {
      ghost var m, g := Grid(imageMask), Grid(greyscale);
      ghost var n := width;
      assert |m| == |g| == inHeight;
      ghost var last, table;
      seam, last, table := RemoveSeam();
      ghost var m', g' := Grid(imageMask), Grid(greyscale);
      RoundsSnoc(seams, lasts, tables, mask, grey, m, g, w, seam, last, table, m', g', n);
    }

    /**
      One round of `findSeams`: the seam `findSeam` picks, then removed by
      `updateCostMatrix`, which carves it out of the mask and the greyscale
      buffer. `last` and `table` are the last cost row and the parents the
      seam was picked from.
    */
    method RemoveSeam() returns (seam: seq<int>, ghost last: seq<int>, ghost table: seq<seq<Option<Path>>>)
      requires Valid() && greyscale != null && ParentsInside() && 2 <= width
      modifies this, imageMask, greyscale, costMatrix
      ensures Valid() && ParentsInside() && width == old(width) - 1
      ensures greyscale == old(greyscale) && costMatrix == old(costMatrix)
      ensures |seam| == inHeight && IsPath(seam, old(width))
      ensures last == old(EnergyRow(inHeight - 1))[..old(width)] && table == old(Parents())
      ensures FoundIn(seam, last, table, old(width))
      ensures Grid(imageMask) == CarvedRows(old(Grid(imageMask)), seam, width)
      ensures Grid(greyscale) == CarvedRows(old(Grid(greyscale)), seam, width)
    {
      ghost var mask, grey := Grid(imageMask), Grid(greyscale);
      seam, last, table := FindSeam();
      assert forall y :: 0 <= y < inHeight ==> Row(imageMask, y) == old(Row(imageMask, y)) && Row(greyscale, y) == old(Row(greyscale, y));
      UpdateCostMatrix(seam);
      RowsCarved(Grid(imageMask), mask, seam, width);
      RowsCarved(Grid(greyscale), grey, seam, width);
    }

    /**
      The first three steps of `reduceImageWidth`: `setGreyscale`,
      `initCostMatrix` and `calcForwardCostMatrix`. Afterwards the cost
      matrix holds the forward-cost table of the image's energies.
    */
    method ComputeCostTable()
      requires Valid() && Fresh()
      modifies this
      ensures Valid() && ParentsInside() && greyscale != null && width == inWidth
      ensures fresh(greyscale) && fresh(costMatrix)
      ensures Grey() == GreyImage(workingImage)
      ensures BacktracesAreCheapest(Parents(), ImageEnergies(Grid(imageMask), Grey()), Grey(), width, inHeight, EnergyRow(inHeight - 1)[..width])
    {
      SetGreyscale();
      InitCostMatrix();
      ghost var e, g := Energies(), Grey();
      assert e == ImageEnergies(Grid(imageMask), g);
      CalcForwardCostMatrix();
      CostTableSeams(e);
    }

    /** On a cost matrix holding the forward-cost table of `e`, every seam `findSeam` can pick is a cheapest seam. */
    lemma CostTableSeams(e: seq<seq<int>>)
      requires Valid() && greyscale != null && costMatrix != null
      requires IsTable(Energies(), Parents(), e, Grey(), width)
      ensures ParentsInside()
      ensures BacktracesAreCheapest(Parents(), e, Grey(), width, inHeight, EnergyRow(inHeight - 1)[..width])
    {
      ghost var c, ps, g := Energies(), Parents(), Grey();
      TableSeamsAreCheapest(c, ps, e, g, width);
      assert c[inHeight - 1] == EnergyRowOf(costMatrix, inHeight - 1) == EnergyRow(inHeight - 1);
    }

    /**
      `reduceImageWidth`: the greyscale buffer, the initial energies and the
      forward-cost table, then `numOfSeams` seams found and removed one after
      the other. The seams are returned beside the (still blank)
      output-sized image. The first seam is a cheapest path through the
      original image under the forward-energy cost.
    */
    method Reduce() returns (result: seq<seq<Rgb>>, seams: seq<seq<int>>)
      requires Valid() && Fresh() && Configured() && op == ResizeOp.Reduce
      modifies this, imageMask
      ensures Valid() && width == outWidth == inWidth - numOfSeams && result == Blank(inWidth - numOfSeams, inHeight)
      ensures |seams| == numOfSeams && SeamsFit(seams, inHeight, inWidth)
      ensures 0 < numOfSeams ==> IsCheapestSeam(ImageEnergies(old(Grid(imageMask)), GreyImage(workingImage)), GreyImage(workingImage), inWidth, inHeight, seams[0])
      ensures Grid(imageMask) == CarvedBySeams(old(Grid(imageMask)), seams, inWidth)
    {
      assert outWidth == inWidth - numOfSeams;
      result := Blank(inWidth - numOfSeams, inHeight);
      ghost var mask := Grid(imageMask);
      ComputeCostTable();
      ghost var g := Grey();
      assert Grid(imageMask) == mask;
      ghost var e := ImageEnergies(mask, g);
      assert e == ImageEnergies(old(Grid(imageMask)), GreyImage(workingImage));
      seams := FindSeamsOnTable(e, g);
    }

    /**
      `findSeams` as `reduceImageWidth` calls it, on a cost matrix whose
      every backtrace from a first minimum of the last row is cheapest for
      the energies `e` and grey values `g`: then so is the first seam. The
      mask and the greyscale buffer end up carved by every seam in turn.
    */
    method FindSeamsOnTable(ghost e: seq<seq<int>>, ghost g: seq<seq<int>>) returns (seams: seq<seq<int>>)
      requires Valid() && greyscale != null && ParentsInside() && numOfSeams < width
      requires inHeight <= |e| == |g| && Shaped(e, width) && Shaped(g, width)
      requires BacktracesAreCheapest(Parents(), e, g, width, inHeight, EnergyRow(inHeight - 1)[..width])
      modifies this, imageMask, greyscale, costMatrix
      ensures Valid() && width == old(width) - numOfSeams
      ensures greyscale == old(greyscale) && costMatrix == old(costMatrix)
      ensures |seams| == numOfSeams && SeamsFit(seams, inHeight, old(width))
      ensures 0 < numOfSeams ==> IsCheapestSeam(e, g, old(width), inHeight, seams[0])
      ensures Grid(imageMask) == CarvedBySeams(old(Grid(imageMask)), seams, old(width))
      ensures Grid(greyscale) == CarvedBySeams(old(Grid(greyscale)), seams, old(width))
    {
      ghost var last, ps := EnergyRow(inHeight - 1)[..width], Parents();
      ghost var lasts, tables;
      seams, lasts, tables := FindSeams();
      if 0 < numOfSeams {
        assert lasts[0] == last && tables[0] == ps;
        FirstSeamIsCheapest(seams, lasts, tables, e, g, old(width), inHeight);
      }
    }

    /**
      `resize`: the operation the constructor selected. Widening is not
      implemented and throws; an unchanged width returns a copy of the
      working image; narrowing runs `reduceImageWidth`.
    */
    method Resize() returns (r: Result<seq<seq<Rgb>>, Error>, ghost seams: seq<seq<int>>)
      requires Valid() && Fresh() && Configured()
      modifies this, imageMask
      ensures Valid()
      ensures op == ResizeOp.Increase ==> r == Failure(Unimplemented("increaseImageWidth")) && unchanged(this, imageMask)
      ensures op == ResizeOp.Duplicate ==> r == Success(workingImage) && unchanged(this, imageMask)
      ensures op == ResizeOp.Reduce ==> r == Success(Blank(inWidth - numOfSeams, inHeight)) && width == outWidth
      ensures op == ResizeOp.Reduce ==>
        && |seams| == numOfSeams && SeamsFit(seams, inHeight, inWidth)
        && (0 < numOfSeams ==> IsCheapestSeam(ImageEnergies(old(Grid(imageMask)), GreyImage(workingImage)), GreyImage(workingImage), inWidth, inHeight, seams[0]))
        && Grid(imageMask) == CarvedBySeams(old(Grid(imageMask)), seams, inWidth)
    {
      match op
      case Increase =>
        r, seams := Failure(Unimplemented("increaseImageWidth")), [];
      case Duplicate =>
        r, seams := Success(workingImage), [];
      case Reduce =>
        var result;
        result, seams := Reduce();
        r := Success(result);
    }
  }
}
