/** The error returns of the quoting code, and the result type that carries them. */
module Outcome {

  datatype Error =
    // arithmetic that traps or is caught by a checked operation
    | Overflow | Underflow | DivideByZero | DoesNotFit
    // reserve and vault conditions
    | ZeroAmount | EmergencyMode | ReserveDeprecated | ReserveObsolete | CtokenUsageBlocked
    | UnknownRateBasis | NetAmount | NetZero | CollateralZero | DepositAboveNet | DepositLimit
    | OutOfSync | MintZero | ValuePerShareLoss | BurnExceedsSupply | NoIntermediate | RedeemZero
    | UnderlyingZero | InsufficientLiquidity | WithdrawalCap
    // kvault
    | BelowMinimum | AboveCapacity | AumZero | AumBelowFees | TotalZero | PenaltyTooLarge
    | ReserveNotCached | FinalZero | FarmNotCached
    // lulo
    | Halted | CoverageCap | ValueWithoutSupply | SupplyWithoutValue | FullExit | OwedZero
    // marginfi
    | BankClosed | CapacityExceeded | LerpRange
    // boundary search
    | BoundarySearchFailed | NoQuotableValue
    // router
    | InvalidSwapInput | MissingRemainingAccount | InvalidAccountData | ReservedBalanceViolation
    | TransferFailed

  datatype Option<+T> = None | Some(value: T)

  datatype Result<+T> = Ok(value: T) | Err(error: Error) {
    predicate IsFailure() {
      Err?
    }

    function PropagateFailure<U>(): Result<U>
      requires Err?
    {
      Err(error)
    }

    function Extract(): T
      requires Ok?
    {
      value
    }
  }

  /** Fails with `error` unless `condition` holds. */
  function Require(condition: bool, error: Error): Result<()> {
    if condition then Ok(()) else Err(error)
  }
}
