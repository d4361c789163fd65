/** Outcomes of reads and calls against the pool, and the ordered
    call-signature fallback that the fuzz harness wraps around every
    state-changing call. The pool and the chain are oracles: a read or a
    call either returns a value or raises. */
module Calls {

  datatype Option<+T> = None | Some(value: T)

  /** The exceptions the harness tells apart. In ape a ContractLogicError
      (a revert) is a kind of TransactionError; everything else raised by a
      call is some other Exception. */
  datatype Error =
    | ContractLogicError(message: string)
    | TransactionError(message: string)
    | OtherException(message: string)
  {
    /** What `except TransactionError` catches. */
    predicate IsTransactionError() {
      ContractLogicError? || TransactionError?
    }
  }

  /** A read or a call either returns a value or raises an exception. */
  datatype Outcome<+T> = Ok(value: T) | Raised(error: Error)

  type Address = string

  /** The state-changing entry points the scripts submit, with the exact
      arguments passed. `receiver` is None for the variant that leaves the
      receiver out, and `value` is the native amount attached. */
  datatype Call =
    | Exchange(i: int, j: int, dx: int, minDy: int, receiver: Option<Address>, sender: Address)
    | AddLiquidity(amounts: seq<int>, minMint: int, receiver: Option<Address>, sender: Address, value: int)
    | RemoveLiquidityOneCoin(lpAmount: int, coin: int, minAmount: int, receiver: Option<Address>, sender: Address)
    | RampAGamma(futureA: int, futureGamma: int, futureTime: int, sender: Address)
    | RampA(futureA: int, futureTime: int, sender: Address)

  /** The chain as seen by a caller: what submitting a call returns. */
  type Ledger = Call -> Outcome<()>

  /** The `except` clause standing between two call variants:
      `except Exception` or `except ContractLogicError`. */
  datatype Handler = AnyException | ContractLogicOnly

  predicate Catches(h: Handler, e: Error) {
    h.AnyException? || e.ContractLogicError?
  }

  /** The variants that were submitted, in order, and the outcome of the last. */
  datatype Attempts = Attempts(tried: seq<Call>, outcome: Outcome<()>)

  /** Submits the variants in order, moving to the next one only when the
      current one raises an error the handler swallows. */
  function TryInOrder(variants: seq<Call>, ledger: Ledger, handler: Handler): (r: Attempts)
    requires |variants| > 0
    ensures 0 < |r.tried| <= |variants| && r.tried == variants[..|r.tried|]
    // only the last attempt decides the outcome, and its error is the one surfaced
    ensures r.outcome == ledger(r.tried[|r.tried| - 1])
    // every earlier attempt raised, and the handler swallowed its error
    ensures forall k :: 0 <= k < |r.tried| - 1 ==>
              ledger(r.tried[k]).Raised? && Catches(handler, ledger(r.tried[k]).error)
    // a swallowed failure stops the search only when the variants are used up
    ensures r.outcome.Raised? && Catches(handler, r.outcome.error) ==> r.tried == variants
    decreases |variants|
  {
    var first := ledger(variants[0]);
    if |variants| == 1 || first.Ok? || !Catches(handler, first.error) then
      Attempts([variants[0]], first)
    else
      var rest := TryInOrder(variants[1..], ledger, handler);
      Attempts([variants[0]] + rest.tried, rest.outcome)
  }

  /** The two-variant shape every rule of the harness uses: the second
      variant is submitted exactly when the first raised a swallowed error,
      and then its outcome is the result. */
  lemma TwoVariants(first: Call, second: Call, ledger: Ledger, handler: Handler)
    ensures var r := TryInOrder([first, second], ledger, handler);
            if ledger(first).Ok? || !Catches(handler, ledger(first).error)
            then r == Attempts([first], ledger(first))
            else r == Attempts([first, second], ledger(second))
  {
    var r := TryInOrder([first, second], ledger, handler);
    if ledger(first).Raised? && Catches(handler, ledger(first).error) {
      assert |r.tried| == 2;
    } else {
      assert |r.tried| == 1;
    }
  }
}
