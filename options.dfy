/** The conventional optional value, standing for the source's `undefined`/`null` references. */
module Options {

  datatype Option<+T> = None | Some(value: T)

  /** Larger of two naturals: the iteration count of a lockstep walk over two lists. */
  function Max(a: nat, b: nat): nat
  {
    if a < b then b else a
  }

  function Min(a: nat, b: nat): nat
  {
    if a < b then a else b
  }
}
