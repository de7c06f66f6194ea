/** The solver boundary. A built coverage model is represented by the status the
    solver reports after `optimize` on the problem built for a facility count and
    a coverage fraction. The solver itself is not modelled. */
module SolverStatus {

  /** The Gurobi termination statuses this code can observe. */
  datatype Status =
    | Optimal
    | SolutionLimit
    | Infeasible
    | InfOrUnbd
    | Unbounded
    | TimeLimit
    | OtherStatus

  /** What the solver reports for the problem built with (count, alpha). */
  type Solver = (int, real) -> Status

  /** `Model.is_fesible` in models/abstract_model.py: a first solution was found,
      or the search finished with an optimum. */
  function IsFesible(s: Status): (r: bool)
    ensures r <==> s == Optimal || s == SolutionLimit
  {
    match s
    case Optimal => true
    case SolutionLimit => true
    case _ => false
  }

  /** The feasibility oracle that the package's search sees. */
  function PackageOracle(model: Solver): (int, real) -> bool
  {
    (count: int, alpha: real) => IsFesible(model(count, alpha))
  }
}
