/**
  Reads in `SeamsCarver` that fall outside the image or the current
  width. Each is modelled as written, beside a lemma that names an input
  where it goes wrong; the rest of the model uses the corrected definitions
  (`Carving.Neighbour`, `Carving.NeighbourWithin`, `ForwardCost.ForwardStep`,
  `Carving.SeamsCarver.ShiftRow`).
*/
module SourceDefects {
  import opened Wrappers
  import opened ForwardCost
  import opened Carving

  /** `ArrayIndexOutOfBoundsException` for the index that was read. */
  datatype Fault = IndexOutOfBounds(index: int)

  /**
    `calcEnergy`'s neighbour, as written against `n` (the input size): it
    leaves the image exactly at index 0 of a dimension shorter than 3.
  */
  lemma NeighbourAsWrittenOutside(i: nat, n: nat)
    requires i < n
    ensures !(0 <= NeighbourAsWritten(i, n) < n) <==> i == 0 && n <= 2
  {
  }

  /**
    After seams are removed the current width `w` is below `inWidth`, yet
    `calcEnergy` still measures against `inWidth`: for the last column of
    the current image it picks the column just outside it. The corrected
    neighbour stays inside and takes the column on the other side.
  */
  lemma NeighbourAsWrittenPassesWidth(w: nat, inWidth: nat)
    requires 1 <= w && w + 2 <= inWidth
    ensures NeighbourAsWritten(w - 1, inWidth) == w
    ensures NeighbourWithin(w - 1, inWidth, w) < w
    ensures 2 <= w ==> NeighbourWithin(w - 1, inWidth, w) == w - 2
  {
  }

  /**
    `calcRecursiveCost` for column `x` of a row of `n` cells, as written:
    the centre candidate reads `g[x + 1]` and then `g[x - 1]` whatever `x`
    is, so the first read outside the row throws. Otherwise all three
    candidates exist (the guard `x != inWidth - 1` then always holds) and
    the first minimum is chosen.
  */
  function RecursiveCostAsWritten(up: seq<int>, g: seq<int>, ga: seq<int>, x: nat, n: nat): (r: Result<Step, Fault>)
    requires x < n == |up| == |g| == |ga|
    ensures r.Failure? <==> x == 0 || x == n - 1
    ensures r.Failure? ==> r.error == IndexOutOfBounds(if x + 1 == n then n else -1)
  {
    if x + 1 >= n then Failure(IndexOutOfBounds(x + 1))
    else if x == 0 then Failure(IndexOutOfBounds(x - 1))
    else
      var edge := Abs(g[x + 1] - g[x - 1]);
      var center := Finite(up[x] + edge);
      var left := Finite(up[x - 1] + edge + Abs(ga[x] - g[x - 1]));
      var right := Finite(up[x + 1] + edge + Abs(g[x + 1] - ga[x]));
      var p := PathByMinimum(left, center, right);
      Success(Step(p, Choose(p, left, center, right).v))
  }

  /**
    `calcForwardCostMatrix` calls `calcRecursiveCost` for every column of
    every row but the first, so it throws at row 1, column 0, for every
    accepted image on which `initCostMatrix` returns (every image at least
    3 by 3 pixels, for one; see `NeighbourAsWrittenOutside`).
  */
  lemma ForwardCostAsWrittenThrows(up: seq<int>, g: seq<int>, ga: seq<int>, n: nat)
    requires 2 <= n == |up| == |g| == |ga|
    ensures RecursiveCostAsWritten(up, g, ga, 0, n) == Failure(IndexOutOfBounds(-1))
    ensures RecursiveCostAsWritten(up, g, ga, n - 1, n) == Failure(IndexOutOfBounds(n))
  {
  }

  /**
    Wherever the code as written does not throw, the corrected step
    `ForwardStep` makes the same choice and adds the same value.
  */
  lemma ForwardStepAgreesInside(up: seq<int>, g: seq<int>, ga: seq<int>, x: nat, n: nat)
    requires x < n == |up| == |g| == |ga| && 0 < x < n - 1
    ensures RecursiveCostAsWritten(up, g, ga, x, n) == Success(ForwardStep(up, g, ga, x, n))
  {
    var edge := Abs(g[x + 1] - g[x - 1]);
    assert NewEdge(g, x, n) == edge;
    assert Candidate(up, g, ga, x, n, L) == Finite(up[x - 1] + edge + Abs(ga[x] - g[x - 1]));
    assert Candidate(up, g, ga, x, n, V) == Finite(up[x] + edge);
    assert Candidate(up, g, ga, x, n, R) == Finite(up[x + 1] + edge + Abs(g[x + 1] - ga[x]));
  }

  /**
    The inner loop of `updateCostMatrix` on one buffer row `a` of `inWidth`
    cells, as written: `x` runs from the seam column `s` while
    `x < inWidth` and copies `a[x + 1]` into `a[x]`. Every step but the
    last shifts one cell; the last reads `a[inWidth]` and throws, which is
    returned as `fault`. By then the row is already carved: column `s` is
    gone and the last cell is still in place.
  */
  method ShiftAsWritten<T>(a: array<T>, s: nat) returns (fault: Option<Fault>)
    requires s < a.Length
    modifies a
    ensures fault == Some(IndexOutOfBounds(a.Length))
    ensures a[..] == Carved(old(a[..]), s, a.Length - 1)
  {
    var x := s;
    while x + 1 < a.Length
      invariant s <= x < a.Length
      invariant forall i :: 0 <= i < a.Length ==> a[i] == old(a[if s <= i < x then i + 1 else i])
    {
      a[x] := a[x + 1];
      x := x + 1;
    }
    fault := Some(IndexOutOfBounds(x + 1));
    assert a[..] == Carved(old(a[..]), s, a.Length - 1);
  }
}
