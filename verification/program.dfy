/** The top-level flow around the solver: validate the matrix (abort on a
    negative off-diagonal cost), solve, then re-sum the returned path and
    compare it with the returned cost. Printing and timing are not modelled. */
module Program {
  import opened Paths
  import opened Recurrence
  import opened Solver

  /** What a run ends with: the process aborts on an invalid matrix;
      otherwise the solver's cost and path, and the re-summed path cost. */
  datatype Report = Rejected | Solved(cost: int, path: seq<int>, verifiedCost: int)

  method Run(n: nat, w: seq<seq<int>>) returns (r: Report)
    requires n >= 1 && Square(n, w)
    ensures r.Rejected? <==> !NonNegative(n, w)
    ensures r.Solved? ==> r.cost <= INF
    ensures r.Solved? ==> (r.verifiedCost == r.cost <==> r.cost < INF)
    ensures r.Solved? && r.cost < INF ==> IsTour(n, r.path)
    ensures r.Solved? && r.cost == INF ==> r.path == [0] && r.verifiedCost == 0
  {
    var ok := ValidateInput(n, w);
    if !ok {
      return Rejected;
    }
    var cost, path := SolveTSP(n, w);
    var verified := VerifyPath(n, w, path);
    return Solved(cost, path, verified);
  }
}
