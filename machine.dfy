/** Rust's unsigned machine integers and the ways a debug build of the program
    stops (panics). Every arithmetic step of the core that can panic goes
    through one of the checked operations below, so a panic is a value the
    model returns rather than a precondition it assumes away. */
module Machine {

  const U32_LIMIT: int := 0x1_0000_0000

  /** Rust's `u32`. */
  type u32 = x: int | 0 <= x < U32_LIMIT

  /** Rust's `u8`. */
  type byte = x: int | 0 <= x < 256

  datatype Option<+T> = None | Some(value: T)

  /** Why the program panicked. */
  datatype Fault =
    | DivideByZero               // "attempt to divide by zero"
    | SubtractOverflow           // "attempt to subtract with overflow"
    | AddOverflow                // "attempt to add with overflow"
    | MultiplyOverflow           // "attempt to multiply with overflow"
    | IndexOutOfBounds           // indexing a Vec past its length
    | SurfaceTextureUnavailable  // the `expect` on the surface's current texture

  /** The result of a computation that either finishes or panics. It supports
      `:-`, which mirrors how a Rust panic ends everything after it. */
  datatype Outcome<+T> = Done(value: T) | Panic(fault: Fault) {
    predicate IsFailure() {
      Panic?
    }

    function PropagateFailure<U>(): Outcome<U>
      requires Panic?
    {
      Panic(fault)
    }

    function Extract(): T
      requires Done?
    {
      value
    }
  }

  function CheckedAdd(a: u32, b: u32): Outcome<u32> {
    if a + b < U32_LIMIT then Done(a + b) else Panic(AddOverflow)
  }

  function CheckedSub(a: u32, b: u32): Outcome<u32> {
    if b <= a then Done(a - b) else Panic(SubtractOverflow)
  }

  function CheckedMul(a: u32, b: u32): Outcome<u32> {
    if a * b < U32_LIMIT then MulNonNegative(a, b); Done(a * b) else Panic(MultiplyOverflow)
  }

  lemma MulNonNegative(a: nat, b: nat)
    ensures 0 <= a * b
  {
  }

  function CheckedDiv(a: u32, b: u32): Outcome<u32> {
    if b == 0 then Panic(DivideByZero) else Done(Div(a, b))
  }

  /** Unsigned division by a divisor known to be nonzero. */
  function Div(a: u32, b: u32): u32
    requires b > 0
  {
    QuotientAtMost(a, b);
    a / b
  }

  lemma QuotientAtMost(a: nat, b: nat)
    requires b > 0
    ensures 0 <= a / b <= a
  {
    assert 0 <= a / b;
    assert b * (a / b) <= a;
    assert b * (a / b) - a / b == (b - 1) * (a / b);
    MulNonNegative(b - 1, a / b);
  }

  function Max(a: u32, b: u32): u32 {
    if a < b then b else a
  }
}
