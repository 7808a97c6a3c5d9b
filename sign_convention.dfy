// `BreakdownParams.from_account`: how the root account class turns
// ledger-signed balances into chart values (`invert`) and which way value
// flows in a flow diagram (`direction`).
module SignConvention {
  import opened Wrappers
  import opened AccountPath

  datatype BreakdownParams = BreakdownParams(invert: int, direction: int)

  /** `ValueError(account)`: the root segment is not a known account class. */
  datatype SignError = UnknownAccountClass(account: string)

  /** The table keyed on the first path segment. Credit-normal classes
      (Income, Liabilities, Equity) are inverted; Expenses and Liabilities
      flow out of their rollup node. */
  function FromAccount(account: string): (r: Result<BreakdownParams, SignError>)
    ensures r.Ok? <==> FirstSegment(account) in {"Income", "Expenses", "Assets", "Liabilities", "Equity"}
    ensures r.Err? ==> r.error == UnknownAccountClass(account)
    ensures r.Ok? ==> (r.value.invert == 1 <==> FirstSegment(account) in {"Expenses", "Assets"})
    ensures r.Ok? ==> (r.value.direction == 1 <==> FirstSegment(account) in {"Income", "Assets", "Equity"})
    ensures r.Ok? ==> r.value.invert in {1, -1} && r.value.direction in {1, -1}
  {
    match FirstSegment(account)
    case "Income" => Ok(BreakdownParams(-1, 1))
    case "Expenses" => Ok(BreakdownParams(1, -1))
    case "Assets" => Ok(BreakdownParams(1, 1))
    case "Liabilities" => Ok(BreakdownParams(-1, -1))
    case "Equity" => Ok(BreakdownParams(-1, 1))
    case _ => Err(UnknownAccountClass(account))
  }

  /** Only the root segment matters: an account and its root class get the
      same parameters, and fail together. */
  lemma FromAccountByRoot(account: string)
    ensures FromAccount(account).Ok? == FromAccount(FirstSegment(account)).Ok?
    ensures FromAccount(account).Ok? ==> FromAccount(account) == FromAccount(FirstSegment(account))
  {
    FirstSegmentIdempotent(account);
  }
}
