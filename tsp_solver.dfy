/**
 * Post-processing of the solver's output in app/tsp_solver.py: turning the 0/1
 * successor matrix into a closed tour (`reconstruct_tour`) and summing the
 * distances of the chosen matrix cells (`path_dist`). Matrices are sequences of
 * rows; the MIP solve that produces the 0/1 matrix is not part of this model.
 */
module TspSolver {
  import opened Wrappers

  /** n rows of n entries each: the shape of the solver's matrices. */
  predicate IsSquare(m: seq<seq<int>>) {
    forall i :: 0 <= i < |m| ==> |m[i]| == |m|
  }

  predicate InRange(s: seq<nat>, n: nat) {
    forall k :: 0 <= k < |s| ==> s[k] < n
  }

  predicate Distinct(s: seq<nat>) {
    forall i, j :: 0 <= i < j < |s| ==> s[i] != s[j]
  }

  /** Every consecutive pair of `s` is a selected cell of `m`. */
  predicate Follows(m: seq<seq<int>>, s: seq<nat>)
    requires IsSquare(m) && InRange(s, |m|)
  {
    forall k {:trigger m[s[k]][s[k + 1]]} :: 0 <= k < |s| - 1 ==> m[s[k]][s[k + 1]] == 1
  }

  /** A walk under construction: starts at city 0, valid indices, no repeats, every step an edge. */
  predicate IsOpenPath(m: seq<seq<int>>, s: seq<nat>) {
    IsSquare(m) && |s| > 0 && s[0] == 0 && InRange(s, |m|) && Distinct(s) && Follows(m, s)
  }

  /** City `j` may be appended after `cur`: the cell is 1 and `j` is not yet in the tour. */
  predicate IsCandidate(m: seq<seq<int>>, cur: nat, visited: seq<nat>, j: nat)
    requires IsSquare(m) && cur < |m| && j < |m|
  {
    m[cur][j] == 1 && j !in visited
  }

  /** The first candidate at column `j` or later: what the inner `for j` loop with `break` picks. */
  function FirstCandidate(m: seq<seq<int>>, cur: nat, visited: seq<nat>, j: nat): (r: Option<nat>)
    requires IsSquare(m) && cur < |m| && j <= |m|
    ensures r.Some? ==> j <= r.value < |m| && IsCandidate(m, cur, visited, r.value)
    ensures r.Some? ==> forall y :: j <= y < r.value ==> !IsCandidate(m, cur, visited, y)
    ensures r.None? ==> forall y :: j <= y < |m| ==> !IsCandidate(m, cur, visited, y)
    decreases |m| - j
  {
    if j == |m| then None
    else if IsCandidate(m, cur, visited, j) then Some(j)
    else FirstCandidate(m, cur, visited, j + 1)
  }

  /** One pass of the outer loop: append the first unvisited successor of the last city, if any. */
  function Step(m: seq<seq<int>>, tour: seq<nat>): (r: seq<nat>)
    requires IsSquare(m) && |tour| > 0 && tour[|tour| - 1] < |m|
    ensures |r| > 0 && r[0] == tour[0] && r[|r| - 1] < |m|
  {
    match FirstCandidate(m, tour[|tour| - 1], tour, 0)
    case None => tour
    case Some(j) => tour + [j]
  }

  /** The open tour after `passes` passes of the outer loop. */
  function Walk(m: seq<seq<int>>, passes: nat): (r: seq<nat>)
    requires IsSquare(m) && |m| > 0
    ensures |r| > 0 && r[0] == 0 && r[|r| - 1] < |m|
  {
    if passes == 0 then [0] else Step(m, Walk(m, passes - 1))
  }

  /** A pass keeps the walk a path: either unchanged, or extended by one fresh city along an edge. */
  lemma StepKeepsPath(m: seq<seq<int>>, t: seq<nat>)
    requires IsOpenPath(m, t)
    ensures IsOpenPath(m, Step(m, t))
    ensures Step(m, t) == t || (|Step(m, t)| == |t| + 1 && Step(m, t)[..|t|] == t)
  {
    var r := Step(m, t);
    if r != t {
      var j := r[|r| - 1];
      assert r == t + [j] && j !in t && m[t[|t| - 1]][j] == 1;
      assert r[..|t|] == t;
    }
  }

  /** After p passes the walk is a path from city 0 of at most p + 1 distinct cities. */
  lemma {:induction false} WalkIsPath(m: seq<seq<int>>, p: nat)
    requires IsSquare(m) && |m| > 0
    ensures IsOpenPath(m, Walk(m, p)) && |Walk(m, p)| <= p + 1
  {
    if p > 0 {
      WalkIsPath(m, p - 1);
      StepKeepsPath(m, Walk(m, p - 1));
    }
  }

  /** The tour `reconstruct_tour` returns: n - 1 passes (none when n <= 1), then tour[0] appended. */
  function Reconstruct(m: seq<seq<int>>): (tour: seq<nat>)
    requires IsSquare(m)
    ensures |tour| >= 2 && tour[0] == 0 && tour[|tour| - 1] == tour[0]
  {
    if |m| == 0 then [0, 0]
    else
      var open := Walk(m, |m| - 1);
      open + [open[0]]
  }

  /**
   * What `reconstruct_tour` guarantees for any square matrix: the tour starts and
   * ends at city 0, has at most n + 1 entries, uses only indices 0..n-1, repeats
   * no city before the closing entry, and each appended step follows a 1 of the matrix.
   * With no cities at all it is `[0, 0]`.
   */
  lemma ReconstructedTour(m: seq<seq<int>>)
    requires IsSquare(m)
    ensures var tour := Reconstruct(m);
      tour[0] == 0 && tour[|tour| - 1] == 0 &&
      (|m| > 0 ==> |tour| <= |m| + 1 && InRange(tour, |m|) &&
                   Distinct(tour[..|tour| - 1]) && Follows(m, tour[..|tour| - 1])) &&
      (|m| == 0 ==> tour == [0, 0])
  {
    if |m| > 0 {
      var open := Walk(m, |m| - 1);
      WalkIsPath(m, |m| - 1);
      assert Reconstruct(m)[..|open|] == open;
    }
  }

  /** The scan of one pass stopped at candidate `j`, so the pass appends `j`. */
  lemma ScanFound(m: seq<seq<int>>, t: seq<nat>, j: nat)
    requires IsSquare(m) && |t| > 0 && t[|t| - 1] < |m| && j < |m| && IsCandidate(m, t[|t| - 1], t, j)
    requires FirstCandidate(m, t[|t| - 1], t, 0) == FirstCandidate(m, t[|t| - 1], t, j)
    ensures Step(m, t) == t + [j]
  {
  }

  /** The scan of one pass found no candidate, so the pass leaves the tour as it is. */
  lemma ScanExhausted(m: seq<seq<int>>, t: seq<nat>)
    requires IsSquare(m) && |t| > 0 && t[|t| - 1] < |m|
    requires FirstCandidate(m, t[|t| - 1], t, 0) == FirstCandidate(m, t[|t| - 1], t, |m|)
    ensures Step(m, t) == t
  {
  }

  /** With at least one city, the tour is the walk after n - 1 passes, closed by city 0. */
  lemma ReconstructIsClosedWalk(m: seq<seq<int>>)
    requires IsSquare(m) && |m| > 0
    ensures Reconstruct(m) == Walk(m, |m| - 1) + [0]
  {
  }

  /** `reconstruct_tour`: an outer loop of n - 1 passes growing `tour`, then tour[0] appended. */
  method ReconstructTour(m: seq<seq<int>>) returns (tour: seq<nat>)
    requires IsSquare(m)
    ensures tour == Reconstruct(m)
  {
    var n := |m|;
    tour := [0];
    var current: nat := 0;
    var pass := 0;
    while pass < n - 1
      invariant 0 <= pass && (n > 0 ==> pass <= n - 1)
      invariant n == 0 ==> tour == [0]
      invariant n > 0 ==> tour == Walk(m, pass) && current == tour[|tour| - 1]
    {
      tour, current := ScanPass(m, tour, current);
      pass := pass + 1;
    }
    tour := tour + [tour[0]];
    if n > 0 {
      ReconstructIsClosedWalk(m);
    }
  }

  /** One pass of `reconstruct_tour`: the inner `for j` loop, which appends the first candidate and breaks. */
  method ScanPass(m: seq<seq<int>>, tour: seq<nat>, current: nat) returns (next: seq<nat>, last: nat)
    requires IsSquare(m) && |tour| > 0 && current == tour[|tour| - 1] && current < |m|
    ensures next == Step(m, tour) && last == next[|next| - 1]
  {
    next, last := tour, current;
    var n := |m|;
    for j := 0 to n
      invariant next == tour && last == current
      invariant FirstCandidate(m, current, tour, 0) == FirstCandidate(m, current, tour, j)
    {
      if m[current][j] == 1 && j !in next {
        ScanFound(m, tour, j);
        next := next + [j];
        last := j;
        return;
      }
    }
    ScanExhausted(m, tour);
  }

  /** The city after position `k` of the cycle `c`, wrapping around to the first. */
  function Successor(c: seq<nat>, k: nat): (next: nat)
    requires k < |c|
  {
    if k + 1 < |c| then c[k + 1] else c[0]
  }

  /** `c` lists each of the cities 0..n-1 exactly once, starting with city 0. */
  predicate IsCityOrder(c: seq<nat>, n: nat) {
    |c| == n > 0 && c[0] == 0 && InRange(c, n) && Distinct(c) && (forall v :: 0 <= v < n ==> v in c)
  }

  /** Row `c[k]` of `m` holds a single 1, in the column of the next city of the cycle. */
  predicate HasCycleEdges(m: seq<seq<int>>, c: seq<nat>)
    requires IsSquare(m) && InRange(c, |m|)
  {
    forall k, j {:trigger m[c[k]][j]} :: 0 <= k < |c| && 0 <= j < |m| ==> (m[c[k]][j] == 1 <==> j == Successor(c, k))
  }

  /** `m` is the 0/1 matrix of a single Hamiltonian cycle `c` through all its cities. */
  predicate IsCycleMatrix(m: seq<seq<int>>, c: seq<nat>) {
    IsSquare(m) && IsCityOrder(c, |m|) && HasCycleEdges(m, c)
  }

  /** On a cycle matrix, the scan from the last city of `c[..p]` picks the next city `c[p]`. */
  lemma CycleScan(m: seq<seq<int>>, c: seq<nat>, p: nat)
    requires IsCycleMatrix(m, c) && 0 < p < |c|
    ensures FirstCandidate(m, c[p - 1], c[..p], 0) == Some(c[p])
  {
    assert Successor(c, p - 1) == c[p];
    assert c[p] !in c[..p];
    assert IsCandidate(m, c[p - 1], c[..p], c[p]);
  }

  lemma {:induction false} WalkFollowsCycle(m: seq<seq<int>>, c: seq<nat>, p: nat)
    requires IsCycleMatrix(m, c) && p < |c|
    ensures Walk(m, p) == c[..p + 1]
  {
    if p > 0 {
      WalkFollowsCycle(m, c, p - 1);
      CycleScan(m, c, p);
      assert c[..p + 1] == c[..p] + [c[p]];
    }
  }

  /**
   * When the matrix encodes a single Hamiltonian cycle, reconstruction recovers
   * that cycle: n + 1 entries, every city exactly once, then back to city 0.
   */
  lemma {:induction false} CycleRecovered(m: seq<seq<int>>, c: seq<nat>)
    requires IsCycleMatrix(m, c)
    ensures Reconstruct(m) == c + [0]
    ensures |Reconstruct(m)| == |m| + 1
    ensures forall v :: 0 <= v < |m| ==> v in Reconstruct(m)[..|m|]
  {
    WalkFollowsCycle(m, c, |c| - 1);
    assert c[..|c|] == c;
    ReconstructIsClosedWalk(m);
    var tour := Reconstruct(m);
    assert tour == c + [0];
    assert tour[..|m|] == c;
  }

  // ---------------------------------------------------------------- path_dist

  /** Sum of `d[i][j]` over the selected cells `m[i][j] == 1` of row `i` with `j < cols`. */
  function RowCost(m: seq<seq<int>>, d: seq<seq<int>>, i: nat, cols: nat): (cost: int)
    requires IsSquare(m) && IsSquare(d) && |d| == |m| && i < |m| && cols <= |m|
  {
    if cols == 0 then 0
    else RowCost(m, d, i, cols - 1) + (if m[i][cols - 1] == 1 then d[i][cols - 1] else 0)
  }

  /** Sum of the selected cells over the first `rows` rows. */
  function MatrixCost(m: seq<seq<int>>, d: seq<seq<int>>, rows: nat): (cost: int)
    requires IsSquare(m) && IsSquare(d) && |d| == |m| && rows <= |m|
  {
    if rows == 0 then 0 else MatrixCost(m, d, rows - 1) + RowCost(m, d, rows - 1, |m|)
  }

  /** The sum of `d[i][j]` over exactly the cells where `m[i][j] == 1`. */
  function SelectedCost(m: seq<seq<int>>, d: seq<seq<int>>): (cost: int)
    requires IsSquare(m) && IsSquare(d) && |d| == |m|
  {
    MatrixCost(m, d, |m|)
  }

  /** The `path_dist` accumulation: a double loop adding `distances[i][j]` where the tour matrix is 1. */
  method PathDist(m: seq<seq<int>>, d: seq<seq<int>>) returns (pathDist: int)
    requires IsSquare(m) && IsSquare(d) && |d| == |m|
    ensures pathDist == SelectedCost(m, d)
  {
    var n := |m|;
    pathDist := 0;
    for i := 0 to n
      invariant pathDist == MatrixCost(m, d, i)
    {
      for j := 0 to n
        invariant pathDist == MatrixCost(m, d, i) + RowCost(m, d, i, j)
      {
        if m[i][j] == 1 {
          pathDist := pathDist + d[i][j];
        }
      }
    }
  }

  /** Length of a tour: the sum of `d` over its consecutive pairs. */
  function TourCost(d: seq<seq<int>>, t: seq<nat>): (cost: int)
    requires IsSquare(d) && InRange(t, |d|)
  {
    if |t| < 2 then 0 else d[t[0]][t[1]] + TourCost(d, t[1..])
  }

  /** Sum of the row costs of the rows listed in `s`, in order. */
  function RowsCost(m: seq<seq<int>>, d: seq<seq<int>>, s: seq<nat>): (cost: int)
    requires IsSquare(m) && IsSquare(d) && |d| == |m| && InRange(s, |m|)
  {
    if s == [] then 0 else RowCost(m, d, s[0], |m|) + RowsCost(m, d, s[1..])
  }

  /** The cost of the rows in `s` is the cost of row `s[p]` plus that of the others. */
  lemma {:induction false} RowsCostRemove(m: seq<seq<int>>, d: seq<seq<int>>, s: seq<nat>, p: nat)
    requires IsSquare(m) && IsSquare(d) && |d| == |m| && InRange(s, |m|) && p < |s|
    ensures InRange(s[..p] + s[p + 1..], |m|)
    ensures RowsCost(m, d, s) == RowCost(m, d, s[p], |m|) + RowsCost(m, d, s[..p] + s[p + 1..])
  {
    var rest := s[..p] + s[p + 1..];
    if p == 0 {
      assert rest == s[1..];
    } else {
      var tail := s[1..];
      RowsCostRemove(m, d, tail, p - 1);
      assert rest == [s[0]] + (tail[..p - 1] + tail[p..]);
    }
  }

  /** Taking the largest city out of an order of 0..rows-1 leaves an order of 0..rows-2. */
  lemma RemoveLargest(s: seq<nat>, rows: nat, p: nat)
    requires rows > 0 && |s| == rows && InRange(s, rows) && Distinct(s)
    requires forall v :: 0 <= v < rows ==> v in s
    requires p < |s| && s[p] == rows - 1
    ensures var rest := s[..p] + s[p + 1..];
      |rest| == rows - 1 && InRange(rest, rows - 1) && Distinct(rest) &&
      forall v :: 0 <= v < rows - 1 ==> v in rest
  {
    var top := rows - 1;
    var rest := s[..p] + s[p + 1..];
    forall k | 0 <= k < |rest| ensures rest[k] < top {
      if k < p { assert rest[k] == s[k]; } else { assert rest[k] == s[k + 1]; }
    }
    forall v | 0 <= v < top ensures v in rest {
      assert v in s;
      var q :| 0 <= q < |s| && s[q] == v;
      if q < p { assert rest[q] == v; } else { assert rest[q - 1] == v; }
    }
    forall i, j | 0 <= i < j < |rest| ensures rest[i] != rest[j] {
      var i' := if i < p then i else i + 1;
      var j' := if j < p then j else j + 1;
      assert rest[i] == s[i'] && rest[j] == s[j'];
    }
  }

  /** Summing the rows in any order that lists each row once gives the whole matrix's cost. */
  lemma {:induction false} RowsCostPermutation(m: seq<seq<int>>, d: seq<seq<int>>, s: seq<nat>, rows: nat)
    requires IsSquare(m) && IsSquare(d) && |d| == |m| && rows <= |m|
    requires |s| == rows && InRange(s, rows) && Distinct(s)
    requires forall v :: 0 <= v < rows ==> v in s
    ensures RowsCost(m, d, s) == MatrixCost(m, d, rows)
  {
    if rows > 0 {
      assert rows - 1 in s;
      var p :| 0 <= p < |s| && s[p] == rows - 1;
      RemoveLargest(s, rows, p);
      RowsCostPermutation(m, d, s[..p] + s[p + 1..], rows - 1);
      RowsCostRemove(m, d, s, p);
    }
  }

  /** A row of a cycle matrix selects exactly one cell: the edge to the next city of the cycle. */
  lemma {:induction false} CycleRowCost(m: seq<seq<int>>, d: seq<seq<int>>, c: seq<nat>, k: nat, cols: nat)
    requires IsCycleMatrix(m, c) && IsSquare(d) && |d| == |m| && k < |c| && cols <= |m|
    ensures RowCost(m, d, c[k], cols) == if Successor(c, k) < cols then d[c[k]][Successor(c, k)] else 0
  {
    if cols > 0 {
      CycleRowCost(m, d, c, k, cols - 1);
    }
  }

  lemma {:induction false} CycleSuffixCost(m: seq<seq<int>>, d: seq<seq<int>>, c: seq<nat>, i: nat)
    requires IsCycleMatrix(m, c) && IsSquare(d) && |d| == |m| && i <= |c|
    ensures InRange((c + [0])[i..], |d|)
    ensures RowsCost(m, d, c[i..]) == TourCost(d, (c + [0])[i..])
    decreases |c| - i
  {
    var t := c + [0];
    if i < |c| {
      CycleSuffixCost(m, d, c, i + 1);
      CycleRowCost(m, d, c, i, |m|);
      assert c[i..][1..] == c[i + 1..];
      assert t[i..][1..] == t[i + 1..];
      assert t[i + 1] == Successor(c, i);
    }
  }

  /**
   * For a solution matrix that encodes a Hamiltonian cycle, `path_dist` is the
   * length of the tour `reconstruct_tour` returns.
   */
  lemma PathDistIsTourCost(m: seq<seq<int>>, d: seq<seq<int>>, c: seq<nat>)
    requires IsCycleMatrix(m, c) && IsSquare(d) && |d| == |m|
    ensures InRange(Reconstruct(m), |d|) && SelectedCost(m, d) == TourCost(d, Reconstruct(m))
  {
    CycleRecovered(m, c);
    CycleSuffixCost(m, d, c, 0);
    RowsCostPermutation(m, d, c, |m|);
    assert c[0..] == c && (c + [0])[0..] == c + [0];
  }
}
