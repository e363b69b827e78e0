/**
 The performance budgets the test suite measures against: timing limits in
 milliseconds and resource limits in requests, bytes and HTTP status codes.
 */
module Budgets {

  datatype Timing = Timing(ttfb: nat, fcp: nat, lcp: nat, tti: nat)

  datatype Resources = Resources(
    maxRequests: nat,
    totalSize: nat,
    maxAssetSize: nat,
    allowedStatusCodes: seq<nat>)

  datatype PerformanceBudgets = PerformanceBudgets(timing: Timing, resources: Resources)

  /**
   `factor * 1024 * 1024` evaluated on JavaScript numbers, for a factor that
   makes the product a whole number of bytes (as 1 and 1.5 do).
   */
  function Mebibytes(factor: real): (bytes: nat)
    requires factor >= 0.0
    requires (factor * 1048576.0).Floor as real == factor * 1048576.0
    ensures bytes as real == factor * 1024.0 * 1024.0
  {
    (factor * 1048576.0).Floor
  }

  const performanceBudgets: PerformanceBudgets := PerformanceBudgets(
    Timing(ttfb := 200, fcp := 1800, lcp := 2500, tti := 3800),
    Resources(
      maxRequests := 50,
      totalSize := Mebibytes(1.5),
      maxAssetSize := Mebibytes(1.0),
      allowedStatusCodes := [200, 304]))

  /** The budget values, written out as plain integers. */
  lemma BudgetValues()
    ensures performanceBudgets.timing == Timing(200, 1800, 2500, 3800)
    ensures performanceBudgets.resources.maxRequests == 50
    ensures performanceBudgets.resources.totalSize == 1572864
    ensures performanceBudgets.resources.maxAssetSize == 1048576
  {
  }

  /** The status is one of the allowed status codes. */
  predicate IsAllowedStatus(status: nat)
  {
    status in performanceBudgets.resources.allowedStatusCodes
  }

  /** Exactly 200 and 304 are allowed; a partial response, a redirect or a 404 is not. */
  lemma AllowedStatusCodes(status: nat)
    ensures IsAllowedStatus(status) <==> status == 200 || status == 304
    ensures !IsAllowedStatus(206) && !IsAllowedStatus(301) && !IsAllowedStatus(404)
  {
  }
}
