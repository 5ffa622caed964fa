/**
  The pure part of the seam-carving engine: the three-way argmin that picks a
  cell's parent, one step of the forward-energy recurrence, the dynamic
  programming table it defines, the first-occurrence argmin over a row, and the
  backtrace of a seam through a grid of parent directions.

  Grids are row-major sequences of rows (`m[y][x]`); a grid of current width
  `w` may have longer rows, whose columns `>= w` are stale and never read.
*/
module ForwardCost {
  import opened Wrappers

  /** The parent direction of a cost cell: above-left, straight above, above-right. */
  datatype Path = L | V | R

  /**
    A candidate path cost. `Infinite` stands for the `Long.MAX_VALUE` sentinel
    the engine stores for a candidate that does not exist (no column to the
    left of column 0, none to the right of the last column).
  */
  datatype Cost = Finite(v: int) | Infinite

  /** `a <= b`, with `Infinite` above every finite cost. */
  predicate AtMost(a: Cost, b: Cost) {
    match b
    case Infinite => true
    case Finite(y) => a.Finite? && a.v <= y
  }

  function Min(a: Cost, b: Cost): Cost {
    if AtMost(a, b) then a else b
  }

  /** Position of a direction in the tie-break order L, V, R. */
  function Rank(p: Path): nat {
    match p
    case L => 0
    case V => 1
    case R => 2
  }

  /** The candidate of the three that a direction names. */
  function Choose(p: Path, a: Cost, b: Cost, c: Cost): Cost {
    match p
    case L => a
    case V => b
    case R => c
  }

  /**
    `getPathByMinimum`: the direction whose argument is the minimum of the
    three, the earliest of L, V, R on a tie.
  */
  function PathByMinimum(a: Cost, b: Cost, c: Cost): (p: Path)
    ensures p == L <==> AtMost(a, b) && AtMost(a, c)
    ensures p == V <==> !AtMost(a, b) && AtMost(b, c)
    ensures p == R <==> !AtMost(a, c) && !AtMost(b, c)
  {
    var minVal := Min(a, Min(b, c));
    if minVal == a then L
    else if minVal == b then V
    else R
  }

  /** The chosen argument is a minimum, and every direction earlier in the order is strictly more costly. */
  lemma PathByMinimumIsFirstArgmin(a: Cost, b: Cost, c: Cost)
    ensures var p := PathByMinimum(a, b, c);
      && AtMost(Choose(p, a, b, c), a)
      && AtMost(Choose(p, a, b, c), b)
      && AtMost(Choose(p, a, b, c), c)
      && forall q :: Rank(q) < Rank(p) ==> !AtMost(Choose(q, a, b, c), Choose(p, a, b, c))
  {
    var p := PathByMinimum(a, b, c);
    if p == V {
      assert !AtMost(a, b);
    } else if p == R {
      assert !AtMost(a, c) && !AtMost(b, c);
    }
  }

  function Abs(n: int): nat {
    if n < 0 then -n else n
  }

  /** Column offset of the parent cell: the parent of (y, x) is (y - 1, x + Offset(p)). */
  function Offset(p: Path): int {
    match p
    case L => -1
    case V => 0
    case R => 1
  }

  /** The parent of column `x` exists in a grid of width `w`. */
  predicate Fits(p: Path, x: nat, w: nat) {
    0 <= x + Offset(p) < w
  }

  /**
    Cost of the adjacency that removing column `x` creates between its left
    and right neighbours in the current row `g`; 0 at either edge, where one
    of the two neighbours does not exist.
  */
  function NewEdge(g: seq<int>, x: nat, w: nat): nat
    requires x < w <= |g|
  {
    if 0 < x && x + 1 < w then Abs(g[x + 1] - g[x - 1]) else 0
  }

  /**
    The forward cost of reaching column `x` of row `g` from the parent in
    direction `p`, where `ga` is the row above: the new horizontal adjacency
    plus, for a diagonal step, the new vertical adjacency it creates.
  */
  function EdgeCost(g: seq<int>, ga: seq<int>, x: nat, w: nat, p: Path): nat
    requires x < w <= |g| && w <= |ga| && Fits(p, x, w)
  {
    NewEdge(g, x, w) +
    match p
    case L => Abs(ga[x] - g[x - 1])
    case V => 0
    case R => Abs(g[x + 1] - ga[x])
  }

  /** The candidate for direction `p`: parent's accumulated cost plus the edge cost, or absent. */
  function Candidate(up: seq<int>, g: seq<int>, ga: seq<int>, x: nat, w: nat, p: Path): Cost
    requires x < w <= |up| && w <= |g| && w <= |ga|
  {
    if Fits(p, x, w) then Finite(up[x + Offset(p)] + EdgeCost(g, ga, x, w, p)) else Infinite
  }

  /** What one step of the recurrence decides for a cell: its parent and the value added to it. */
  datatype Step = Step(parent: Path, value: int)

  /**
    `calcRecursiveCost` without its side effect: from the accumulated costs
    `up` of the row above and the intensities of this row (`g`) and the row
    above (`ga`), the parent direction and the chosen candidate value of
    column `x` in a grid of width `w`.
  */
  function ForwardStep(up: seq<int>, g: seq<int>, ga: seq<int>, x: nat, w: nat): (s: Step)
    requires x < w <= |up| && w <= |g| && w <= |ga|
    ensures Fits(s.parent, x, w)
  {
    var left := Candidate(up, g, ga, x, w, L);
    var center := Candidate(up, g, ga, x, w, V);
    var right := Candidate(up, g, ga, x, w, R);
    var p := PathByMinimum(left, center, right);
    Step(p, Choose(p, left, center, right).v)
  }

  /**
    The step picks the minimum of the present candidates and records its
    direction as the parent, preferring L, then V, then R on ties; so the
    parent is never L in column 0 nor R in the last column.
  */
  lemma ForwardStepIsFirstArgmin(up: seq<int>, g: seq<int>, ga: seq<int>, x: nat, w: nat)
    requires x < w <= |up| && w <= |g| && w <= |ga|
    ensures var s := ForwardStep(up, g, ga, x, w);
      && (s.parent == L ==> x > 0)
      && (s.parent == R ==> x < w - 1)
      && Candidate(up, g, ga, x, w, s.parent) == Finite(s.value)
      && (forall p :: AtMost(Finite(s.value), Candidate(up, g, ga, x, w, p)))
      && (forall p :: Rank(p) < Rank(s.parent) ==> !AtMost(Candidate(up, g, ga, x, w, p), Finite(s.value)))
  {
    PathByMinimumIsFirstArgmin(Candidate(up, g, ga, x, w, L), Candidate(up, g, ga, x, w, V), Candidate(up, g, ga, x, w, R));
  }

  /** A step reads only the first `w` costs of the row above. */
  lemma ForwardStepLocal(up: seq<int>, up': seq<int>, g: seq<int>, ga: seq<int>, x: nat, w: nat)
    requires x < w <= |up| && w <= |up'| && w <= |g| && w <= |ga|
    requires forall k :: 0 <= k < w ==> up[k] == up'[k]
    ensures ForwardStep(up, g, ga, x, w) == ForwardStep(up', g, ga, x, w)
  {
    forall p: Path
      ensures Candidate(up, g, ga, x, w, p) == Candidate(up', g, ga, x, w, p)
    {
      if Fits(p, x, w) {
        assert up[x + Offset(p)] == up'[x + Offset(p)];
      }
    }
  }

  /** Every row of `m` has at least `w` columns. */
  predicate Shaped<T>(m: seq<seq<T>>, w: nat) {
    forall y :: 0 <= y < |m| ==> w <= |m[y]|
  }

  /**
    Row `y` of the forward cost table that `initCostMatrix` followed by
    `calcForwardCostMatrix` computes from the raw energies `e` and the
    intensities `g`: row 0 is the raw energy, every later cell is its raw
    energy plus the chosen candidate of its step.
  */
  function CostRow(e: seq<seq<int>>, g: seq<seq<int>>, w: nat, y: nat): (row: seq<int>)
    requires y < |e| == |g| && Shaped(e, w) && Shaped(g, w)
    ensures |row| == w
    ensures y == 0 ==> row == e[0][..w]
  {
    if y == 0 then e[0][..w]
    else
      StepRow(CostRow(e, g, w, y - 1), e[y], g[y], g[y - 1], w, w)
  }

  /**
    The first `n` cells of the row below `up`: each cell's raw energy `ey[x]`
    plus the value its step chooses.
  */
  function StepRow(up: seq<int>, ey: seq<int>, g: seq<int>, ga: seq<int>, w: nat, n: nat): (row: seq<int>)
    requires n <= w <= |up| && w <= |ey| && w <= |g| && w <= |ga|
    ensures |row| == n
  {
    if n == 0 then []
    else StepRow(up, ey, g, ga, w, n - 1) + [ey[n - 1] + ForwardStep(up, g, ga, n - 1, w).value]
  }

  lemma {:induction false} StepRowAt(up: seq<int>, ey: seq<int>, g: seq<int>, ga: seq<int>, w: nat, n: nat, x: nat)
    requires n <= w <= |up| && w <= |ey| && w <= |g| && w <= |ga| && x < n
    ensures StepRow(up, ey, g, ga, w, n)[x] == ey[x] + ForwardStep(up, g, ga, x, w).value
  {
    if x < n - 1 {
      StepRowAt(up, ey, g, ga, w, n - 1, x);
    }
  }

  /** A table cell below row 0 is its raw energy plus the value its step chooses over the row above. */
  lemma CostRowAt(e: seq<seq<int>>, g: seq<seq<int>>, w: nat, y: nat, x: nat)
    requires 1 <= y < |e| == |g| && Shaped(e, w) && Shaped(g, w) && x < w
    ensures CostRow(e, g, w, y)[x] == e[y][x] + ForwardStep(CostRow(e, g, w, y - 1), g[y], g[y - 1], x, w).value
  {
    StepRowAt(CostRow(e, g, w, y - 1), e[y], g[y], g[y - 1], w, w, x);
  }

  /** The parent the table records at (y, x), for y >= 1. */
  function TableParent(e: seq<seq<int>>, g: seq<seq<int>>, w: nat, y: nat, x: nat): Path
    requires 1 <= y < |e| == |g| && Shaped(e, w) && Shaped(g, w) && x < w
  {
    ForwardStep(CostRow(e, g, w, y - 1), g[y], g[y - 1], x, w).parent
  }

  /** A vertical path of `|p|` rows in a grid of width `w`: in range and 8-connected. */
  predicate IsPath(p: seq<int>, w: nat) {
    && (forall i :: 0 <= i < |p| ==> 0 <= p[i] < w)
    && (forall i :: 0 <= i < |p| - 1 ==> Adjacent(p, i))
  }

  /** Rows `i` and `i + 1` of a path are at most one column apart. */
  predicate Adjacent(p: seq<int>, i: int) {
    0 <= i < |p| - 1 && -1 <= p[i] - p[i + 1] <= 1
  }

  lemma PrefixIsPath(p: seq<int>, w: nat, n: nat)
    requires IsPath(p, w) && n <= |p|
    ensures IsPath(p[..n], w)
  {
    forall i | 0 <= i < n - 1
      ensures Adjacent(p[..n], i)
    {
      assert Adjacent(p, i);
    }
  }

  lemma SnocIsPath(q: seq<int>, x: int, w: nat)
    requires IsPath(q, w) && 0 <= x < w && (|q| > 0 ==> -1 <= q[|q| - 1] - x <= 1)
    ensures IsPath(q + [x], w)
  {
    var p := q + [x];
    forall i | 0 <= i < |p| - 1
      ensures Adjacent(p, i)
    {
      if i < |q| - 1 {
        assert Adjacent(q, i);
      }
    }
  }

  /** How the backtrace moves the index for a stored parent; a missing parent leaves it alone. */
  function Move(p: Option<Path>): int {
    match p
    case Some(d) => Offset(d)
    case None => 0
  }

  /** Every stored parent in rows >= 1 points inside a grid of width `w`. */
  predicate ParentsFit(ps: seq<seq<Option<Path>>>, w: nat)
    requires Shaped(ps, w)
  {
    forall y, x :: 1 <= y < |ps| && 0 <= x < w ==> 0 <= x + Move(ps[y][x]) < w
  }

  /** Row `i` of the seam is row `i + 1`'s index moved by the parent stored at row `i + 1`. */
  predicate Linked(ps: seq<seq<Option<Path>>>, seam: seq<int>, i: int) {
    && 0 <= i < |seam| - 1 && i + 1 < |ps| && 0 <= seam[i + 1] < |ps[i + 1]|
    && seam[i] == seam[i + 1] + Move(ps[i + 1][seam[i + 1]])
  }

  /**
    `findSeam`'s walk: the seam over rows 0..y that ends at column `idx` of
    row `y`, each row's index obtained from the row below by its stored parent.
  */
  function Backtrace(ps: seq<seq<Option<Path>>>, w: nat, y: nat, idx: int): (seam: seq<int>)
    requires y < |ps| && Shaped(ps, w) && ParentsFit(ps, w) && 0 <= idx < w
    ensures |seam| == y + 1 && seam[y] == idx
    ensures IsPath(seam, w)
    ensures forall i :: 0 <= i < y ==> Linked(ps, seam, i)
    decreases y
  {
    if y == 0 then [idx]
    else
      var above := idx + Move(ps[y][idx]);
      var prefix := Backtrace(ps, w, y - 1, above);
      SnocIsPath(prefix, idx, w);
      assert forall i :: 0 <= i < y - 1 ==> Linked(ps, prefix, i) ==> Linked(ps, prefix + [idx], i);
      prefix + [idx]
  }

  /** The direction of the step from column `above` of the row above to column `x`. */
  function DirectionFrom(above: int, x: int): Path {
    if above == x - 1 then L else if above == x then V else R
  }

  /**
    The forward cost of a whole path over rows 0..|p|-1: raw energy of every
    cell it visits plus the edge cost of every step it takes.
  */
  function PathCost(e: seq<seq<int>>, g: seq<seq<int>>, w: nat, p: seq<int>): int
    requires 1 <= |p| <= |e| == |g| && Shaped(e, w) && Shaped(g, w) && IsPath(p, w)
    decreases |p|
  {
    var y := |p| - 1;
    if y == 0 then e[0][p[0]]
    else
      PrefixIsPath(p, w, y);
      assert Adjacent(p, y - 1);
      PathCost(e, g, w, p[..y]) + e[y][p[y]] + EdgeCost(g[y], g[y - 1], p[y], w, DirectionFrom(p[y - 1], p[y]))
  }

  /** `arr[i]` is a minimum of `arr` and strictly below every earlier entry. */
  predicate IsFirstMinimum(arr: seq<int>, i: int) {
    && 0 <= i < |arr|
    && (forall j :: 0 <= j < |arr| ==> arr[i] <= arr[j])
    && (forall j :: 0 <= j < i ==> arr[i] < arr[j])
  }

  /** `findMinCostIdx`: the index of the first occurrence of the minimum. */
  method FindMinCostIdx(arr: seq<int>) returns (minIdx: int)
    requires |arr| > 0
    ensures IsFirstMinimum(arr, minIdx)
  {
    minIdx := 0;
    var min := arr[0];
    for i := 1 to |arr|
      invariant 0 <= minIdx < i && min == arr[minIdx]
      invariant forall j :: 0 <= j < i ==> min <= arr[j]
      invariant forall j :: 0 <= j < minIdx ==> min < arr[j]
    {
      if arr[i] < min {
        min := arr[i];
        minIdx := i;
      }
    }
  }


  /** The grids `c`, `ps`, `e` and `g` all have the same height and at least `w` columns. */
  predicate Grids(c: seq<seq<int>>, ps: seq<seq<Option<Path>>>, e: seq<seq<int>>, g: seq<seq<int>>, w: nat) {
    |c| == |ps| == |e| == |g| && Shaped(c, w) && Shaped(ps, w) && Shaped(e, w) && Shaped(g, w)
  }

  /** The cost of reaching (y, x) from the row above in direction `d`, by the costs `c` of that row. */
  function Via(c: seq<seq<int>>, ps: seq<seq<Option<Path>>>, e: seq<seq<int>>, g: seq<seq<int>>, w: nat, y: nat, x: nat, d: Path): int
    requires Grids(c, ps, e, g, w) && 1 <= y < |c| && x < w && Fits(d, x, w)
  {
    e[y][x] + c[y - 1][x + Offset(d)] + EdgeCost(g[y], g[y - 1], x, w, d)
  }

  /**
    Cell (y, x) obeys the forward-energy recurrence: row 0 holds its raw
    energy; below it the stored parent points inside the grid, the cost is
    reached through that parent, and no other direction is cheaper.
  */
  predicate CellConsistent(c: seq<seq<int>>, ps: seq<seq<Option<Path>>>, e: seq<seq<int>>, g: seq<seq<int>>, w: nat, y: nat, x: nat)
    requires Grids(c, ps, e, g, w) && y < |c| && x < w
  {
    if y == 0 then c[0][x] == e[0][x]
    else
      && ps[y][x].Some? && Fits(ps[y][x].value, x, w)
      && c[y][x] == Via(c, ps, e, g, w, y, x, ps[y][x].value)
      && forall d: Path :: Fits(d, x, w) ==> c[y][x] <= Via(c, ps, e, g, w, y, x, d)
  }

  /** A cost grid and a parent grid that solve the forward-energy recurrence everywhere in width `w`. */
  predicate Consistent(c: seq<seq<int>>, ps: seq<seq<Option<Path>>>, e: seq<seq<int>>, g: seq<seq<int>>, w: nat) {
    && Grids(c, ps, e, g, w)
    && ParentsFit(ps, w)
    && forall y, x :: 0 <= y < |c| && 0 <= x < w ==> CellConsistent(c, ps, e, g, w, y, x)
  }

  /** Any consistent cost entry at the end of a path is at most that path's cost. */
  lemma {:induction false} ConsistentIsLowerBound(c: seq<seq<int>>, ps: seq<seq<Option<Path>>>, e: seq<seq<int>>, g: seq<seq<int>>, w: nat, p: seq<int>)
    requires Consistent(c, ps, e, g, w) && 1 <= |p| <= |c| && IsPath(p, w)
    ensures c[|p| - 1][p[|p| - 1]] <= PathCost(e, g, w, p)
    decreases |p|
  {
    var y := |p| - 1;
    assert CellConsistent(c, ps, e, g, w, y, p[y]);
    if y > 0 {
      var q := p[..y];
      PrefixIsPath(p, w, y);
      ConsistentIsLowerBound(c, ps, e, g, w, q);
      assert Adjacent(p, y - 1);
      var d := DirectionFrom(p[y - 1], p[y]);
      assert c[y][p[y]] <= Via(c, ps, e, g, w, y, p[y], d);
    }
  }

  /** A path whose every row is reached from the row below through the stored parent costs exactly its last entry in `c`. */
  lemma {:induction false} FollowingPathRealises(c: seq<seq<int>>, ps: seq<seq<Option<Path>>>, e: seq<seq<int>>, g: seq<seq<int>>, w: nat, p: seq<int>)
    requires Consistent(c, ps, e, g, w) && 1 <= |p| <= |c| && IsPath(p, w)
    requires forall i :: 0 <= i < |p| - 1 ==> Linked(ps, p, i)
    ensures PathCost(e, g, w, p) == c[|p| - 1][p[|p| - 1]]
    decreases |p|
  {
    var y := |p| - 1;
    assert CellConsistent(c, ps, e, g, w, y, p[y]);
    if y > 0 {
      var q := p[..y];
      PrefixIsPath(p, w, y);
      forall i | 0 <= i < |q| - 1
        ensures Linked(ps, q, i)
      {
        assert Linked(ps, p, i);
      }
      FollowingPathRealises(c, ps, e, g, w, q);
      assert Linked(ps, p, y - 1);
      var d := ps[y][p[y]].value;
      assert DirectionFrom(p[y - 1], p[y]) == d;
      assert c[y][p[y]] == Via(c, ps, e, g, w, y, p[y], d);
    }
  }

  /**
    A seam backtraced from the first minimum of the bottom row of a consistent
    table is a cheapest seam: no connected path over all rows costs less.
  */
  lemma BacktraceIsCheapest(c: seq<seq<int>>, ps: seq<seq<Option<Path>>>, e: seq<seq<int>>, g: seq<seq<int>>, w: nat, idx: int, p: seq<int>)
    requires Consistent(c, ps, e, g, w) && 1 <= |c|
    requires IsFirstMinimum(c[|c| - 1][..w], idx)
    requires |p| == |c| && IsPath(p, w)
    ensures PathCost(e, g, w, Backtrace(ps, w, |c| - 1, idx)) <= PathCost(e, g, w, p)
  {
    FollowingPathRealises(c, ps, e, g, w, Backtrace(ps, w, |c| - 1, idx));
    ConsistentIsLowerBound(c, ps, e, g, w, p);
    assert c[|c| - 1][..w][p[|p| - 1]] == c[|c| - 1][p[|p| - 1]];
  }

  /**
    Cell (y, x) holds what `calcForwardCostMatrix` leaves there: row 0 its
    raw energy, every later cell its raw energy plus the value of the step
    from the row above, with that step's direction as parent.
  */
  predicate TableCell(c: seq<seq<int>>, ps: seq<seq<Option<Path>>>, e: seq<seq<int>>, g: seq<seq<int>>, w: nat, y: nat, x: nat)
    requires Grids(c, ps, e, g, w) && y < |c| && x < w
  {
    if y == 0 then c[0][x] == e[0][x]
    else
      var s := ForwardStep(c[y - 1], g[y], g[y - 1], x, w);
      c[y][x] == e[y][x] + s.value && ps[y][x] == Some(s.parent)
  }

  /** Rows `0 .. n - 1` of `c` and `ps` are the forward-cost table of `e` and `g`. */
  predicate IsTablePrefix(c: seq<seq<int>>, ps: seq<seq<Option<Path>>>, e: seq<seq<int>>, g: seq<seq<int>>, w: nat, n: nat)
    requires Grids(c, ps, e, g, w) && n <= |c|
  {
    forall y, x :: 0 <= y < n && 0 <= x < w ==> TableCell(c, ps, e, g, w, y, x)
  }

  /** `c` and `ps` are the whole forward-cost table of `e` and `g`. */
  predicate IsTable(c: seq<seq<int>>, ps: seq<seq<Option<Path>>>, e: seq<seq<int>>, g: seq<seq<int>>, w: nat) {
    Grids(c, ps, e, g, w) && IsTablePrefix(c, ps, e, g, w, |c|)
  }

  /**
    Filling row `y` from the rows above extends a table prefix: if the rows
    above are kept and every cell of row `y` gets its energy plus the step
    from the (kept) row above, the first `y + 1` rows are a table.
  */
  lemma TablePrefixStep(c: seq<seq<int>>, ps: seq<seq<Option<Path>>>, c': seq<seq<int>>, ps': seq<seq<Option<Path>>>,
                        e: seq<seq<int>>, g: seq<seq<int>>, w: nat, y: nat)
    requires Grids(c, ps, e, g, w) && Grids(c', ps', e, g, w) && 1 <= y < |c|
    requires IsTablePrefix(c, ps, e, g, w, y)
    requires forall r :: 0 <= r < y ==> c'[r] == c[r] && ps'[r] == ps[r]
    requires forall x :: 0 <= x < w ==>
      var s := ForwardStep(c'[y - 1], g[y], g[y - 1], x, w);
      c'[y][x] == e[y][x] + s.value && ps'[y][x] == Some(s.parent)
    ensures IsTablePrefix(c', ps', e, g, w, y + 1)
  {
    forall r, x | 0 <= r < y + 1 && 0 <= x < w
      ensures TableCell(c', ps', e, g, w, r, x)
    {
      if r < y {
        assert TableCell(c, ps, e, g, w, r, x);
        if r > 0 {
          assert c'[r - 1] == c[r - 1];
        }
      }
    }
  }

  /** The table agrees row by row with the reference recurrence `CostRow` and its parents. */
  lemma {:induction false} TableIsCostRow(c: seq<seq<int>>, ps: seq<seq<Option<Path>>>, e: seq<seq<int>>, g: seq<seq<int>>, w: nat, y: nat)
    requires IsTable(c, ps, e, g, w) && y < |c|
    ensures forall x :: 0 <= x < w ==> c[y][x] == CostRow(e, g, w, y)[x]
    ensures forall x :: 1 <= y && 0 <= x < w ==> ps[y][x] == Some(TableParent(e, g, w, y, x))
  {
    if y == 0 {
      forall x | 0 <= x < w
        ensures c[0][x] == CostRow(e, g, w, 0)[x]
      {
        assert TableCell(c, ps, e, g, w, 0, x);
      }
    } else {
      TableIsCostRow(c, ps, e, g, w, y - 1);
      var above := CostRow(e, g, w, y - 1);
      forall x | 0 <= x < w
        ensures c[y][x] == CostRow(e, g, w, y)[x] && ps[y][x] == Some(TableParent(e, g, w, y, x))
      {
        assert TableCell(c, ps, e, g, w, y, x);
        ForwardStepLocal(c[y - 1], above, g[y], g[y - 1], x, w);
        CostRowAt(e, g, w, y, x);
      }
    }
  }

  /** One cell of the table obeys the recurrence. */
  lemma TableCellConsistent(c: seq<seq<int>>, ps: seq<seq<Option<Path>>>, e: seq<seq<int>>, g: seq<seq<int>>, w: nat, y: nat, x: nat)
    requires IsTable(c, ps, e, g, w) && y < |c| && x < w
    ensures CellConsistent(c, ps, e, g, w, y, x)
  {
    assert TableCell(c, ps, e, g, w, y, x);
    if y > 0 {
      var s := ForwardStep(c[y - 1], g[y], g[y - 1], x, w);
      ForwardStepIsFirstArgmin(c[y - 1], g[y], g[y - 1], x, w);
      forall d: Path | Fits(d, x, w)
        ensures c[y][x] <= Via(c, ps, e, g, w, y, x, d)
        ensures d == s.parent ==> c[y][x] == Via(c, ps, e, g, w, y, x, d)
      {
        assert AtMost(Finite(s.value), Candidate(c[y - 1], g[y], g[y - 1], x, w, d));
      }
    }
  }

  /** The forward-cost table is a consistent solution of the recurrence. */
  lemma TableIsConsistent(c: seq<seq<int>>, ps: seq<seq<Option<Path>>>, e: seq<seq<int>>, g: seq<seq<int>>, w: nat)
    requires IsTable(c, ps, e, g, w)
    ensures Consistent(c, ps, e, g, w)
  {
    forall y, x | 0 <= y < |c| && 0 <= x < w
      ensures CellConsistent(c, ps, e, g, w, y, x)
    {
      TableCellConsistent(c, ps, e, g, w, y, x);
    }
    forall y, x | 1 <= y < |ps| && 0 <= x < w
      ensures 0 <= x + Move(ps[y][x]) < w
    {
      assert CellConsistent(c, ps, e, g, w, y, x);
    }
  }

  /**
    The seam found on a freshly computed table is a cheapest seam: no
    connected path over all rows has lower forward cost.
  */
  lemma TableSeamIsCheapest(c: seq<seq<int>>, ps: seq<seq<Option<Path>>>, e: seq<seq<int>>, g: seq<seq<int>>, w: nat, idx: int, p: seq<int>)
    requires IsTable(c, ps, e, g, w) && 1 <= |c|
    requires IsFirstMinimum(c[|c| - 1][..w], idx)
    requires |p| == |c| && IsPath(p, w)
    ensures ParentsFit(ps, w)
    ensures PathCost(e, g, w, Backtrace(ps, w, |c| - 1, idx)) <= PathCost(e, g, w, p)
  {
    TableIsConsistent(c, ps, e, g, w);
    BacktraceIsCheapest(c, ps, e, g, w, idx, p);
  }

  /** `seam` is a path over all `h` rows of width `w` and no such path has a lower forward cost. */
  ghost predicate IsCheapestSeam(e: seq<seq<int>>, g: seq<seq<int>>, w: nat, h: nat, seam: seq<int>)
    requires 1 <= h <= |e| == |g| && Shaped(e, w) && Shaped(g, w)
  {
    && |seam| == h && IsPath(seam, w)
    && forall p {:trigger PathCost(e, g, w, p)} :: |p| == h && IsPath(p, w) ==> PathCost(e, g, w, seam) <= PathCost(e, g, w, p)
  }

  /**
    Every seam backtraced through the parents `ps` from a first cheapest
    entry of `last` (the first `w` energies of row `h - 1`) is a cheapest seam.
  */
  ghost predicate BacktracesAreCheapest(ps: seq<seq<Option<Path>>>, e: seq<seq<int>>, g: seq<seq<int>>, w: nat, h: nat, last: seq<int>)
    requires 1 <= h <= |ps| && h <= |e| == |g| && |last| == w
    requires Shaped(ps, w) && ParentsFit(ps, w) && Shaped(e, w) && Shaped(g, w)
  {
    forall idx :: IsFirstMinimum(last, idx) ==> IsCheapestSeam(e, g, w, h, Backtrace(ps, w, h - 1, idx))
  }

  /** The seam backtraced from a first cheapest cell of the table's last row is a cheapest seam. */
  lemma TableSeamIsCheapestSeam(c: seq<seq<int>>, ps: seq<seq<Option<Path>>>, e: seq<seq<int>>, g: seq<seq<int>>, w: nat, idx: int)
    requires IsTable(c, ps, e, g, w) && 1 <= |c| && ParentsFit(ps, w)
    requires IsFirstMinimum(c[|c| - 1][..w], idx)
    ensures IsCheapestSeam(e, g, w, |c|, Backtrace(ps, w, |c| - 1, idx))
  {
    forall p | |p| == |c| && IsPath(p, w)
      ensures PathCost(e, g, w, Backtrace(ps, w, |c| - 1, idx)) <= PathCost(e, g, w, p)
    {
      TableSeamIsCheapest(c, ps, e, g, w, idx, p);
    }
  }

  /**
    On a forward-cost table, every seam backtraced from a first cheapest
    cell of the last row is a cheapest seam.
  */
  lemma TableSeamsAreCheapest(c: seq<seq<int>>, ps: seq<seq<Option<Path>>>, e: seq<seq<int>>, g: seq<seq<int>>, w: nat)
    requires IsTable(c, ps, e, g, w) && 1 <= |c|
    ensures ParentsFit(ps, w)
    ensures BacktracesAreCheapest(ps, e, g, w, |c|, c[|c| - 1][..w])
  {
    TableIsConsistent(c, ps, e, g, w);
    var last := c[|c| - 1][..w];
    forall idx | IsFirstMinimum(last, idx)
      ensures IsCheapestSeam(e, g, w, |c|, Backtrace(ps, w, |c| - 1, idx))
    {
      TableSeamIsCheapestSeam(c, ps, e, g, w, idx);
    }
  }
}
