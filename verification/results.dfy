/** Failure-compatible results for the computations of the mesh generator.
    The source signals failure only through .NET exceptions; each one that the
    modelled code can raise is a `Fault`. */
module Results {

  datatype Fault =
    | DivideByZero     // a decimal division whose divisor is zero
    | IndexOutOfRange  // a list or array index outside its bounds
    | NonTermination   // the source loops forever on this input
    | FuelExhausted    // the model's bound on a recursion or loop that has no termination argument

  datatype Result<+T> = Ok(value: T) | Err(fault: Fault) {

    predicate IsFailure() {
      Err?
    }

    function PropagateFailure<U>(): Result<U>
      requires Err?
    {
      Err(fault)
    }

    function Extract(): T
      requires Ok?
    {
      value
    }
  }

  /** Decimal division: throws exactly when the divisor is zero. */
  function Div(a: real, b: real): (r: Result<real>)
    ensures r.Ok? <==> b != 0.0
    ensures r.Ok? ==> r.value * b == a
  {
    if b == 0.0 then Err(DivideByZero) else Ok(a / b)
  }
}
